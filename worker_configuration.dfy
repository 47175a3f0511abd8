/**
 * The content ingestion worker's settings helpers: the runtime
 * `Environment` (`develop`, `local` or `production`) read from
 * `APP_ENVIRONMENT`, and the object-storage, RabbitMQ and Meilisearch
 * addresses.
 */
module WorkerConfiguration {
  import opened Wrappers
  import opened Formatting

  datatype Environment = Develop | Local | Production

  /** `Environment::as_str`. */
  function AsStr(e: Environment): (s: string)
    ensures Lower(s) == s
  {
    var s := match e
      case Develop => "develop"
      case Local => "local"
      case Production => "production";
    LowerOfLower(s);
    s
  }

  const UNSUPPORTED: string := " is not a supported environment. Use either `develop`, `local` or `production`."

  /** `TryFrom<String> for Environment`: the lower-cased name, or an error naming it and the three choices. */
  function TryFrom(s: string): (r: Result<Environment, string>)
    ensures r.Ok? <==> Lower(s) == "develop" || Lower(s) == "local" || Lower(s) == "production"
    ensures r.Ok? ==> AsStr(r.value) == Lower(s)
    ensures r.Err? ==> r.error == Lower(s) + UNSUPPORTED
  {
    var t := Lower(s);
    if t == "develop" then Ok(Develop)
    else if t == "local" then Ok(Local)
    else if t == "production" then Ok(Production)
    else Err(t + UNSUPPORTED)
  }

  /** Every environment parses back from its name. */
  lemma TryFromAsStr(e: Environment)
    ensures TryFrom(AsStr(e)) == Ok(e)
  {
    match e
    case Develop =>
    case Local =>
    case Production =>
  }

  /** Parsing ignores case: a name and its lower case parse alike. */
  lemma TryFromIgnoresCase(s: string)
    ensures TryFrom(s) == TryFrom(Lower(s))
  {
    LowerIdempotent(s);
  }

  const DEFAULT_ENVIRONMENT: string := "develop"

  /**
   * The environment `get_configuration` runs in: `APP_ENVIRONMENT` when it is
   * set, "develop" otherwise; a name it does not know stops it (`expect`),
   * which is the error here.
   */
  function SelectEnvironment(appEnvironment: Option<string>): (r: Result<Environment, string>)
    ensures appEnvironment.None? ==> r == Ok(Develop)
    ensures appEnvironment.Some? ==> r == TryFrom(appEnvironment.value)
  {
    var name := if appEnvironment.Some? then appEnvironment.value else DEFAULT_ENVIRONMENT;
    TryFromAsStr(Develop);
    TryFrom(name)
  }

  /** The per-environment settings file: `"<env>.yaml"`. */
  function SettingsFileName(e: Environment): (f: string)
    ensures |f| > 5 && f[|f| - 5..] == ".yaml"
    ensures TryFrom(f[..|f| - 5]) == Ok(e)
  {
    var f := AsStr(e) + ".yaml";
    assert f[..|f| - 5] == AsStr(e);
    TryFromAsStr(e);
    f
  }

  datatype ObjectStorageSettings = ObjectStorageSettings(
    username: string, port: u16, host: string, region: string, bucketName: string)

  datatype RabbitMQSettings = RabbitMQSettings(port: u16, host: string, queueNamePrefix: string)

  /** Meilisearch settings; the API key is not part of this model. */
  datatype MeilisearchSettings = MeilisearchSettings(port: u16, host: string, extractedContentIndex: string)

  /** `ObjectStorageSettings::endpoint`: `"http://host:port"`. */
  function ObjectStorageEndpoint(o: ObjectStorageSettings): (s: string)
    ensures |s| == 7 + |o.host| + 1 + |Decimal(o.port as nat)|
    ensures s[..7] == "http://" && s[7..7 + |o.host|] == o.host
    ensures s[|s| - |Decimal(o.port as nat)|..] == Decimal(o.port as nat)
  {
    HostPort("http", o.host, o.port)
  }

  /** Two settings with the same address have the same host and port. */
  lemma ObjectStorageEndpointInjective(a: ObjectStorageSettings, b: ObjectStorageSettings)
    requires ObjectStorageEndpoint(a) == ObjectStorageEndpoint(b)
    ensures a.host == b.host && a.port == b.port
  {
    HostPortInjective("http", a.host, a.port, b.host, b.port);
  }

  /** `RabbitMQSettings::get_uri`: `"amqp://host:port"`. */
  function RabbitMQUri(r: RabbitMQSettings): (s: string)
    ensures |s| == 7 + |r.host| + 1 + |Decimal(r.port as nat)|
    ensures s[..7] == "amqp://" && s[7..7 + |r.host|] == r.host
    ensures s[|s| - |Decimal(r.port as nat)|..] == Decimal(r.port as nat)
  {
    HostPort("amqp", r.host, r.port)
  }

  /** Two settings with the same address have the same host and port. */
  lemma RabbitMQUriInjective(a: RabbitMQSettings, b: RabbitMQSettings)
    requires RabbitMQUri(a) == RabbitMQUri(b)
    ensures a.host == b.host && a.port == b.port
  {
    HostPortInjective("amqp", a.host, a.port, b.host, b.port);
  }

  /** `MeilisearchSettings::endpoint`: `"http://host:port"`. */
  function MeilisearchEndpoint(m: MeilisearchSettings): (s: string)
    ensures |s| == 7 + |m.host| + 1 + |Decimal(m.port as nat)|
    ensures s[..7] == "http://" && s[7..7 + |m.host|] == m.host
    ensures s[|s| - |Decimal(m.port as nat)|..] == Decimal(m.port as nat)
  {
    HostPort("http", m.host, m.port)
  }

  /** Two settings with the same address have the same host and port. */
  lemma MeilisearchEndpointInjective(a: MeilisearchSettings, b: MeilisearchSettings)
    requires MeilisearchEndpoint(a) == MeilisearchEndpoint(b)
    ensures a.host == b.host && a.port == b.port
  {
    HostPortInjective("http", a.host, a.port, b.host, b.port);
  }
}
