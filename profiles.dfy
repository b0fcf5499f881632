/** Stored server profiles, as the launcher reads them from its profile store. */
module Profiles {
  import opened StdModel

  /** One stored server profile (`ServerConfig`): read-only once loaded. */
  datatype ServerConfig = ServerConfig(
    title: string,
    category: string,
    host: string,
    port: u32,
    username: string,
    password: string,
    remark: string)

  /** What `get_config` hands back: the profile list in store order, or the
      process has already exited because the store path is unset, the file is
      absent or unreadable. */
  datatype Store = Loaded(profiles: seq<ServerConfig>) | Unavailable
}
