/** The profile selector of the `ssh` subcommand: resolve either an index
    argument or lines typed at a prompt to one stored profile. */
module Selector {
  import opened StdModel
  import opened Profiles

  /** How selection ends: a profile handed to `ssh_login`, or one of the ways
      it stops without one. The first four end the process through
      `process::exit(0)` or by returning; `UnwrapPanic` is a panic (non-zero
      exit status); `SpinsAtEof` never ends. */
  datatype Selection =
    | StoreUnavailable                          // get_config did not yield a list
    | InvalidInteger                            // index argument is not an i32: exit(0)
    | OutOfRange(key: int)                      // index argument has no profile: exit(0)
    | NothingListed                             // prompt mode, empty store: no prompt, returns
    | Chosen(position: nat, profile: ServerConfig)
    | UnwrapPanic(number: int)                  // prompt mode: get(..).unwrap() on None panics
    | SpinsAtEof                                // prompt mode: input ended, re-prompts forever

  /** The zero-based position that `get((n - 1) as usize)` looks up for an
      i32 `n` (release build, so `n - 1` wraps). */
  function LookupPosition(n: int): (pos: nat)
    requires InI32(n)
    ensures 1 <= n ==> pos == n - 1
    ensures n == I32Min ==> pos == I32Max
    ensures I32Min < n <= 0 ==> pos > IsizeMax
  {
    I32AsUsize(WrapI32(n - 1))
  }

  // ---------------------------------------------------------------------------
  // Index-argument mode

  /** `ssh_index_action`: parse the trimmed argument first, only then load the
      store, then look the profile up. */
  function IndexAction(arg: string, store: Store): Selection {
    match ParseI32(Trim(arg))
    case None => InvalidInteger
    case Some(key) =>
      match store
      case Unavailable => StoreUnavailable
      case Loaded(ps) =>
        var pos := LookupPosition(key);
        if pos < |ps| then Chosen(pos, ps[pos]) else OutOfRange(key)
  }

  /** An argument that is not an i32 is reported before the store is
      consulted: the outcome is the same whatever the store holds, even when
      it cannot be loaded. */
  lemma InvalidIndexIgnoresStore(arg: string, store: Store, other: Store)
    requires ParseI32(Trim(arg)) == None
    ensures IndexAction(arg, store) == IndexAction(arg, other) == InvalidInteger
  {
  }

  /** With N profiles a parsed key selects a profile exactly when
      1 <= key <= N, and then it is profile key-1. (The one other way in is the
      wrapped `i32::MIN - 1`, which needs more than 2^31 - 1 profiles.) */
  lemma IndexKeySelects(arg: string, key: int, ps: seq<ServerConfig>)
    requires ParseI32(Trim(arg)) == Some(key)
    requires |ps| <= IsizeMax
    ensures IndexAction(arg, Loaded(ps)).Chosen?
            <==> (1 <= key <= |ps| || (key == I32Min && |ps| > I32Max))
    ensures 1 <= key <= |ps| ==> IndexAction(arg, Loaded(ps)) == Chosen(key - 1, ps[key - 1])
    ensures |ps| <= I32Max && !(1 <= key <= |ps|) ==> IndexAction(arg, Loaded(ps)) == OutOfRange(key)
  {
  }

  // ---------------------------------------------------------------------------
  // Prompt mode, as written

  /** The result of the checks one input line goes through. */
  datatype LineCheck = NotAnInteger | TooSmall(number: int) | TooLarge(number: int) | Passes(number: int)

  /** The checks of the prompt loop with `n` profiles: the trimmed line must
      parse as an i32 and must not exceed `n as i32`. There is no lower bound. */
  function CheckLine(line: string, n: nat): (c: LineCheck)
    ensures c.NotAnInteger? <==> ParseI32(Trim(line)).None?
    ensures c.Passes? ==> ParseI32(Trim(line)) == Some(c.number) && InI32(c.number)
                          && c.number <= WrapI32(n)
    ensures c.TooLarge? ==> ParseI32(Trim(line)) == Some(c.number) && c.number > WrapI32(n)
    ensures n <= I32Max && c.Passes? ==> c.number <= n
    ensures !c.TooSmall?
  {
    match ParseI32(Trim(line))
    case None => NotAnInteger
    case Some(num) => if num > WrapI32(n) then TooLarge(num) else Passes(num)
  }

  /** After a line passed: `config_lines.get((num - 1) as usize).unwrap()`. */
  function Resolve(num: int, ps: seq<ServerConfig>): Selection
    requires InI32(num)
  {
    var pos := LookupPosition(num);
    if pos < |ps| then Chosen(pos, ps[pos]) else UnwrapPanic(num)
  }

  /** Reference for the prompt loop from line `i` on: the first line that
      passes decides; if none does, stdin is at end of input, where every read
      yields an empty line that never parses. Gives the number of lines read
      and the outcome. */
  function ScanFrom(lines: seq<string>, i: nat, ps: seq<ServerConfig>): (nat, Selection)
    requires i <= |lines|
    decreases |lines| - i
  {
    if i == |lines| then (i, SpinsAtEof)
    else match CheckLine(lines[i], |ps|)
      case Passes(num) => (i + 1, Resolve(num, ps))
      case _ => ScanFrom(lines, i + 1, ps)
  }

  /** Reference for `ssh_none_index_action`. */
  function Interactive(store: Store, lines: seq<string>): (nat, Selection) {
    match store
    case Unavailable => (0, StoreUnavailable)
    case Loaded(ps) => if ps == [] then (0, NothingListed) else ScanFrom(lines, 0, ps)
  }

  /** `ssh_none_index_action`: load the store, list it, and unless it is
      empty read lines until one passes the checks, then look its profile up. */
  method SelectInteractively(store: Store, lines: seq<string>) returns (consumed: nat, r: Selection)
    ensures (consumed, r) == Interactive(store, lines)
  {
    if store.Unavailable? {
      return 0, StoreUnavailable;
    }
    var ps := store.profiles;
    if ps == [] {
      return 0, NothingListed;
    }
    var i := 0;
    while i < |lines|
      invariant i <= |lines|
      invariant ScanFrom(lines, 0, ps) == ScanFrom(lines, i, ps)
    {
      var parsed := ParseI32(Trim(lines[i]));
      i := i + 1;
      if parsed.Some? && !(parsed.value > WrapI32(|ps|)) {
        var pos := LookupPosition(parsed.value);
        if pos < |ps| {
          return i, Chosen(pos, ps[pos]);
        }
        return i, UnwrapPanic(parsed.value);
      }
    }
    return |lines|, SpinsAtEof;
  }

  /** The prompt loop stops at the first line that passes the checks, having
      skipped every earlier line, and that line alone decides the outcome; it
      spins at end of input exactly when no line passes. */
  lemma {:induction false} ScanFromMeaning(lines: seq<string>, i: nat, ps: seq<ServerConfig>)
    requires i <= |lines|
    ensures var (k, r) := ScanFrom(lines, i, ps);
      && i <= k <= |lines|
      && (r.SpinsAtEof? ==> k == |lines|)
      && (!r.SpinsAtEof? ==>
            && i < k
            && CheckLine(lines[k - 1], |ps|).Passes?
            && r == Resolve(CheckLine(lines[k - 1], |ps|).number, ps)
            && forall j :: i <= j < k - 1 ==> !CheckLine(lines[j], |ps|).Passes?)
    decreases |lines| - i
  {
    if i < |lines| {
      var c := CheckLine(lines[i], |ps|);
      if !c.Passes? {
        assert ScanFrom(lines, i, ps) == ScanFrom(lines, i + 1, ps);
        ScanFromMeaning(lines, i + 1, ps);
      } else {
        assert ScanFrom(lines, i, ps) == (i + 1, Resolve(c.number, ps));
      }
    }
  }

  /** The prompt loop runs into the end of input exactly when no line passes
      the checks. */
  lemma {:induction false} ScanSpinsIffNoLinePasses(lines: seq<string>, i: nat, ps: seq<ServerConfig>)
    requires i <= |lines|
    ensures ScanFrom(lines, i, ps).1.SpinsAtEof?
            <==> forall j :: i <= j < |lines| ==> !CheckLine(lines[j], |ps|).Passes?
    decreases |lines| - i
  {
    if i < |lines| {
      var c := CheckLine(lines[i], |ps|);
      if !c.Passes? {
        assert ScanFrom(lines, i, ps) == ScanFrom(lines, i + 1, ps);
        ScanSpinsIffNoLinePasses(lines, i + 1, ps);
      } else {
        assert ScanFrom(lines, i, ps) == (i + 1, Resolve(c.number, ps));
      }
    }
  }

  /** A login from the prompt is always to profile `num - 1` for the number
      `num` typed on the deciding line, with 1 <= num <= N. */
  lemma PromptChoiceInRange(lines: seq<string>, ps: seq<ServerConfig>)
    requires 1 <= |ps| <= I32Max
    ensures var (k, r) := Interactive(Loaded(ps), lines);
      r.Chosen? ==>
        && 1 <= k <= |lines|
        && ParseI32(Trim(lines[k - 1])) == Some(r.position + 1)
        && r.position < |ps| && r.profile == ps[r.position]
  {
    ScanFromMeaning(lines, 0, ps);
  }

  /** Zero and negative numbers pass the prompt's only check and reach
      `unwrap()` on a missing profile: they never select anything. */
  lemma NonPositiveNumberPanics(line: string, num: int, ps: seq<ServerConfig>)
    requires ParseI32(Trim(line)) == Some(num) && num <= 0
    requires 1 <= |ps| <= I32Max
    ensures CheckLine(line, |ps|) == Passes(num)
    ensures Resolve(num, ps) == UnwrapPanic(num)
  {
  }

  /** The concrete case: typing `0` at the prompt panics. */
  lemma ZeroAtPromptPanics(ps: seq<ServerConfig>)
    requires 1 <= |ps| <= I32Max
    ensures Interactive(Loaded(ps), ["0\n"]) == (1, UnwrapPanic(0))
  {
    assert "0\n" == [] + Decimal(0) + "\n";
    ParseTypedDecimal([], 0, "\n");
  }

  /** Once the input has ended, every further read is an empty line, which
      never parses: the loop can only re-prompt. */
  lemma EndOfInputNeverPasses(n: nat)
    ensures CheckLine("", n) == NotAnInteger
  {
  }

  // ---------------------------------------------------------------------------
  // Prompt mode, with the lower bound the loop evidently intends

  /** The intended check: a number from 1 to N, anything else re-prompts. */
  function CheckLineBounded(line: string, n: nat): LineCheck {
    match ParseI32(Trim(line))
    case None => NotAnInteger
    case Some(num) =>
      if num < 1 then TooSmall(num) else if num > n then TooLarge(num) else Passes(num)
  }

  function ScanCheckedFrom(lines: seq<string>, i: nat, ps: seq<ServerConfig>): (nat, Selection)
    requires i <= |lines|
    decreases |lines| - i
  {
    if i == |lines| then (i, SpinsAtEof)
    else match CheckLineBounded(lines[i], |ps|)
      case Passes(num) => (i + 1, Chosen(num - 1, ps[num - 1]))
      case _ => ScanCheckedFrom(lines, i + 1, ps)
  }

  /** Prompt mode with the lower-bound check added. */
  function InteractiveChecked(store: Store, lines: seq<string>): (nat, Selection) {
    match store
    case Unavailable => (0, StoreUnavailable)
    case Loaded(ps) => if ps == [] then (0, NothingListed) else ScanCheckedFrom(lines, 0, ps)
  }

  /** With the lower bound in place the prompt never panics: it either logs in
      to profile num-1 for the number num typed on the deciding line, or keeps
      asking. */
  lemma {:induction false} CheckedPromptNeverPanics(lines: seq<string>, i: nat, ps: seq<ServerConfig>)
    requires i <= |lines|
    ensures var (k, r) := ScanCheckedFrom(lines, i, ps);
      && (r.Chosen? || r.SpinsAtEof?)
      && i <= k <= |lines|
      && (r.Chosen? ==>
            && i < k
            && ParseI32(Trim(lines[k - 1])) == Some(r.position + 1)
            && r.position < |ps| && r.profile == ps[r.position])
    decreases |lines| - i
  {
    if i < |lines| && !CheckLineBounded(lines[i], |ps|).Passes? {
      CheckedPromptNeverPanics(lines, i + 1, ps);
    }
  }

  /** The bounded prompt agrees with the written one on every input that
      never types a number below 1. */
  lemma {:induction false} CheckedAgreesOnPositiveInput(lines: seq<string>, i: nat, ps: seq<ServerConfig>)
    requires i <= |lines| && |ps| <= I32Max
    requires forall j :: i <= j < |lines| ==>
               ParseI32(Trim(lines[j])).Some? ==> ParseI32(Trim(lines[j])).value >= 1
    ensures ScanCheckedFrom(lines, i, ps) == ScanFrom(lines, i, ps)
    decreases |lines| - i
  {
    if i < |lines| {
      CheckedAgreesOnPositiveInput(lines, i + 1, ps);
    }
  }

  // ---------------------------------------------------------------------------
  // The `ssh` subcommand

  /** `impl_ssh_action`: an index argument selects directly, none prompts. */
  method SshAction(index: Option<string>, store: Store, lines: seq<string>)
    returns (consumed: nat, r: Selection)
    ensures index.Some? ==> consumed == 0 && r == IndexAction(index.value, store)
    ensures index.None? ==> (consumed, r) == Interactive(store, lines)
  {
    if index.Some? {
      consumed, r := 0, IndexAction(index.value, store);
    } else {
      consumed, r := SelectInteractively(store, lines);
    }
  }
}
