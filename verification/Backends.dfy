/** The two database engines the service runs on. */
module Backends {
  datatype Backend = Postgres | Sqlite
}
