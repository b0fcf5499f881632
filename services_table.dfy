/** The profile listing printed by `ssh` (before the prompt) and by `servers`:
    a header and one row per stored profile, in store order. */
module ServicesTable {
  import opened StdModel
  import opened Profiles
  import opened Selector

  /** One table row: its cells as the table prints them. */
  type Row = seq<string>

  const Header: Row := ["ID", "Host", "Port", "Username", "Title"]

  /** The row of the profile at zero-based `position`: its 1-based ID, then
      host, port, username and title. */
  function ProfileRow(position: nat, p: ServerConfig): Row {
    [Decimal(position + 1), p.host, Decimal(p.port as nat), p.username, p.title]
  }

  /** The table being assembled: titles and rows, in insertion order. Border,
      padding and rendering are not modelled. */
  class Table {
    var titles: Row
    var rows: seq<Row>

    constructor ()
      ensures titles == [] && rows == []
    {
      titles, rows := [], [];
    }

    method SetTitles(t: Row)
      modifies this
      ensures titles == t && rows == old(rows)
    {
      titles := t;
    }

    method AddRow(r: Row)
      modifies this
      ensures rows == old(rows) + [r] && titles == old(titles)
    {
      rows := rows + [r];
    }
  }

  /** `print_services_table` up to printing: set the header, then add one row
      per profile. */
  method BuildServicesTable(lines: seq<ServerConfig>) returns (table: Table)
    ensures fresh(table)
    ensures table.titles == Header
    ensures |table.rows| == |lines|
    ensures forall i :: 0 <= i < |lines| ==> table.rows[i] == ProfileRow(i, lines[i])
  {
    table := new Table();
    table.SetTitles(Header);
    if lines != [] {
      for index := 0 to |lines|
        invariant table.titles == Header
        invariant |table.rows| == index
        invariant forall i :: 0 <= i < index ==> table.rows[i] == ProfileRow(i, lines[i])
      {
        table.AddRow(ProfileRow(index, lines[index]));
      }
    }
  }

  /** `impl_servers_table_action`: load the store and list it. */
  method ListServers(store: Store) returns (table: Table?)
    ensures store.Unavailable? ==> table == null
    ensures store.Loaded? ==>
      && table != null && fresh(table) && table.titles == Header
      && |table.rows| == |store.profiles|
      && forall i :: 0 <= i < |store.profiles| ==> table.rows[i] == ProfileRow(i, store.profiles[i])
  {
    if store.Unavailable? {
      return null;
    }
    table := BuildServicesTable(store.profiles);
  }

  /** A row shows its profile faithfully: its ID cell reads as position + 1,
      its port cell reads as the port, and the other cells are the profile's
      host, username and title. */
  lemma RowShowsProfile(position: nat, p: ServerConfig)
    ensures var row := ProfileRow(position, p);
      && |row| == |Header| == 5
      && AllDigits(row[0]) && DigitsValue(row[0]) == position + 1
      && row[1] == p.host
      && AllDigits(row[2]) && DigitsValue(row[2]) == p.port as nat
      && row[3] == p.username && row[4] == p.title
  {
    DecimalValue(position + 1);
    DecimalValue(p.port as nat);
  }

  /** The ID listed in row i selects profile i, whether it is given as the
      index argument or typed (with its line break) at the prompt, for any
      store of up to 2^31 - 1 profiles. */
  lemma ListedIdSelectsProfile(ps: seq<ServerConfig>, i: nat)
    requires i < |ps| <= I32Max
    ensures IndexAction(ProfileRow(i, ps[i])[0], Loaded(ps)) == Chosen(i, ps[i])
    ensures Interactive(Loaded(ps), [ProfileRow(i, ps[i])[0] + "\n"]) == (1, Chosen(i, ps[i]))
    ensures InteractiveChecked(Loaded(ps), [ProfileRow(i, ps[i])[0] + "\n"]) == (1, Chosen(i, ps[i]))
  {
    var id := Decimal(i + 1);
    assert id == [] + id + [];
    ParseTypedDecimal([], i + 1, []);
    assert id + "\n" == [] + id + "\n";
    ParseTypedDecimal([], i + 1, "\n");
  }
}
