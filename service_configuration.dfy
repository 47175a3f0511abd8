/**
 * The content ingestion service's settings helpers: the runtime
 * `Environment` (`local` or `production`) read from `APP_ENVIRONMENT`, the
 * Postgres SSL mode, and the object-storage and RabbitMQ addresses.
 */
module ServiceConfiguration {
  import opened Wrappers
  import opened Formatting

  datatype Environment = Local | Production

  /** `Environment::as_str`. */
  function AsStr(e: Environment): (s: string)
    ensures Lower(s) == s
  {
    var s := match e
      case Local => "local"
      case Production => "production";
    LowerOfLower(s);
    s
  }

  const UNSUPPORTED: string := " is not a supported environment. Use either `local` or `production`."

  /** `TryFrom<String> for Environment`: the lower-cased name, or an error naming it. */
  function TryFrom(s: string): (r: Result<Environment, string>)
    ensures r.Ok? <==> Lower(s) == "local" || Lower(s) == "production"
    ensures r.Ok? ==> AsStr(r.value) == Lower(s)
    ensures r.Err? ==> r.error == Lower(s) + UNSUPPORTED
  {
    var t := Lower(s);
    if t == "local" then Ok(Local)
    else if t == "production" then Ok(Production)
    else Err(t + UNSUPPORTED)
  }

  /** Every environment parses back from its name. */
  lemma TryFromAsStr(e: Environment)
    ensures TryFrom(AsStr(e)) == Ok(e)
  {
    match e
    case Local =>
    case Production =>
  }

  /** Parsing ignores case: a name and its lower case parse alike. */
  lemma TryFromIgnoresCase(s: string)
    ensures TryFrom(s) == TryFrom(Lower(s))
  {
    LowerIdempotent(s);
  }

  const DEFAULT_ENVIRONMENT: string := "local"

  /**
   * The environment `get_configuration` runs in: `APP_ENVIRONMENT` when it is
   * set, "local" otherwise; a name it does not know stops it (`expect`),
   * which is the error here.
   */
  function SelectEnvironment(appEnvironment: Option<string>): (r: Result<Environment, string>)
    ensures appEnvironment.None? ==> r == Ok(Local)
    ensures appEnvironment.Some? ==> r == TryFrom(appEnvironment.value)
  {
    var name := if appEnvironment.Some? then appEnvironment.value else DEFAULT_ENVIRONMENT;
    TryFromAsStr(Local);
    TryFrom(name)
  }

  /** The per-environment settings file: `"<env>.yaml"`. */
  function SettingsFileName(e: Environment): (f: string)
    ensures |f| > 5 && f[|f| - 5..] == ".yaml"
    ensures TryFrom(f[..|f| - 5]) == Ok(e)
  {
    var f := AsStr(e) + ".yaml";
    assert f[..|f| - 5] == AsStr(e);
    TryFromAsStr(e);
    f
  }

  datatype SslMode = Require | Prefer

  /** Database settings; the password is not part of this model. */
  datatype DatabaseSettings = DatabaseSettings(
    username: string, port: u16, host: string, databaseName: string, requireSsl: bool)

  /** The Postgres connection options the settings give. */
  datatype ConnectOptions = ConnectOptions(
    host: string, username: string, port: u16, sslMode: SslMode, database: Option<string>)

  /** `without_db`: SSL is required exactly when the settings say so; otherwise it is only preferred. */
  function WithoutDb(d: DatabaseSettings): (o: ConnectOptions)
    ensures o.sslMode == Require <==> d.requireSsl
    ensures o.host == d.host && o.username == d.username && o.port == d.port && o.database == None
  {
    var sslMode := if d.requireSsl then Require else Prefer;
    ConnectOptions(d.host, d.username, d.port, sslMode, None)
  }

  /** `with_db`: the same options, now naming the database. */
  function WithDb(d: DatabaseSettings): (o: ConnectOptions)
    ensures o.database == Some(d.databaseName)
    ensures o.(database := None) == WithoutDb(d)
  {
    WithoutDb(d).(database := Some(d.databaseName))
  }

  datatype ObjectStorageSettings = ObjectStorageSettings(
    username: string, port: u16, host: string, region: string, bucketName: string)

  /** `ObjectStorageSettings::endpoint`: `"http://host:port"`. */
  function ObjectStorageEndpoint(o: ObjectStorageSettings): (s: string)
    ensures |s| == 7 + |o.host| + 1 + |Decimal(o.port as nat)|
    ensures s[..7] == "http://" && s[7..7 + |o.host|] == o.host
    ensures s[|s| - |Decimal(o.port as nat)|..] == Decimal(o.port as nat)
  {
    HostPort("http", o.host, o.port)
  }

  datatype RabbitMQSettings = RabbitMQSettings(port: u16, host: string, queueNamePrefix: string)

  /** `RabbitMQSettings::get_uri`: `"amqp://host:port"`. */
  function RabbitMQUri(r: RabbitMQSettings): (s: string)
    ensures |s| == 7 + |r.host| + 1 + |Decimal(r.port as nat)|
    ensures s[..7] == "amqp://" && s[7..7 + |r.host|] == r.host
    ensures s[|s| - |Decimal(r.port as nat)|..] == Decimal(r.port as nat)
  {
    HostPort("amqp", r.host, r.port)
  }

  /** Two object stores with the same endpoint have the same host and port. */
  lemma ObjectStorageEndpointInjective(a: ObjectStorageSettings, b: ObjectStorageSettings)
    requires ObjectStorageEndpoint(a) == ObjectStorageEndpoint(b)
    ensures a.host == b.host && a.port == b.port
  {
    HostPortInjective("http", a.host, a.port, b.host, b.port);
  }

  /** Two brokers with the same URI have the same host and port. */
  lemma RabbitMQUriInjective(a: RabbitMQSettings, b: RabbitMQSettings)
    requires RabbitMQUri(a) == RabbitMQUri(b)
    ensures a.host == b.host && a.port == b.port
  {
    HostPortInjective("amqp", a.host, a.port, b.host, b.port);
  }
}
