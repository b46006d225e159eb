/** The server options record both harness versions take from their caller. */
module ServerConfig {
  import opened Wrappers
  import opened LibC

  /**
   * struct server_options: the defaults a challenge passes in, which argv
   * may override.  The user is a C string pointer: None is NULL.
   */
  datatype ServerOptions = ServerOptions(
    user: Option<string>,
    chrooted: bool,
    port: UShort,
    timeLimitSeconds: UInt)

  /** The name of the environment variable that marks a connection-handler process. */
  const MARKER: string := "PWNABLE_CONNECTION"

  const EXIT_SUCCESS: int := 0
  const EXIT_FAILURE: int := 1
}
