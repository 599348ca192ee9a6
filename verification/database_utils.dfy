/** The connection record of the dashboard and the engine-specific default ports
    (frontend/src/utils/databaseUtils.ts). */
module DatabaseUtils {
  import opened Wrappers
  import opened Text

  datatype DatabaseType = MySql | PostgreSql | MongoDb | Sqlite

  /** The engine's name as the dashboard spells it in log messages. */
  function TypeName(t: DatabaseType): string {
    match t
    case MySql => "mysql"
    case PostgreSql => "postgresql"
    case MongoDb => "mongodb"
    case Sqlite => "sqlite"
  }

  datatype ConnectionStatus = Connected | Disconnected | Error

  /** A saved database connection. Timestamps are milliseconds since the epoch; the port
      is whatever `parseInt` made of the port field, NaN included. */
  datatype DatabaseConnection = DatabaseConnection(
    id: string,
    name: string,
    dbType: DatabaseType,
    host: string,
    port: JsNumber,
    username: string,
    password: string,
    database: string,
    createdAt: int,
    lastBackupAt: Option<int>,
    status: ConnectionStatus,
    error: Option<string>)

  /** The port a new connection form proposes for an engine; 0 stands for "no port". */
  function DefaultPort(t: DatabaseType): (port: int)
    ensures port == 0 <==> t == Sqlite
    ensures 0 <= port < 65536
  {
    match t
    case MySql => 3306
    case PostgreSql => 5432
    case MongoDb => 27017
    case Sqlite => 0
  }

  /** The networked engines get the ports their servers listen on out of the box. */
  lemma StandardPorts()
    ensures DefaultPort(MySql) == 3306
    ensures DefaultPort(PostgreSql) == 5432
    ensures DefaultPort(MongoDb) == 27017
  {
  }

  /** No two engines share a default port. */
  lemma DefaultPortsDistinct(a: DatabaseType, b: DatabaseType)
    requires a != b
    ensures DefaultPort(a) != DefaultPort(b)
  {
  }

  /** Engine names are distinct, so a log line identifies the engine. */
  lemma TypeNamesDistinct(a: DatabaseType, b: DatabaseType)
    requires TypeName(a) == TypeName(b)
    ensures a == b
  {
  }
}
