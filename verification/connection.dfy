/**
 * Loading the broker settings and building the AMQP URL
 * (connection/connection.go). Reading the file and decoding YAML are outside
 * the model: the first is given as its outcome, the second as a function.
 */
module Connection {
  import opened Common
  import Text

  /** The rabbitmq section of rabbit.yml. */
  datatype RabbitMQ = RabbitMQ(username: string, password: string, host: string, port: int, vhost: string)

  datatype Config = Config(rabbitMQ: RabbitMQ)

  /** A Go error value; only its message is kept. */
  datatype Error = Error(message: string)

  const Scheme: string := "amqp://"

  /**
   * ReadConfig(file): Go's pair (*Config, error). file is the outcome of
   * reading the file; unmarshal stands for yaml.Unmarshal into a Config.
   */
  function ReadConfig(file: Result<seq<byte>, Error>, unmarshal: seq<byte> -> Result<Config, Error>)
    : (r: (Option<Config>, Option<Error>))
    ensures r.0.Some? <==> r.1.None?
    ensures r.1.Some? <==> file.Err? || unmarshal(file.value).Err?
    ensures file.Err? ==> r.1 == Some(file.error)
    ensures r.0.Some? ==> r.0 == Some(unmarshal(file.value).value)
  {
    if file.Err? then (None, Some(file.error))
    else
      match unmarshal(file.value)
      case Err(e) => (None, Some(e))
      case Ok(config) => (Some(config), None)
  }

  /** The URL passed to amqp.Dial: every field inserted as it is, the port by %d. */
  function Url(c: Config): (url: string)
    ensures |url| > |Scheme| && url[..|Scheme|] == Scheme
  {
    var m := c.rabbitMQ;
    Scheme + m.username + ":" + m.password + "@" + m.host + ":" + Text.Decimal(m.port) + "/" + m.vhost
  }

  /** Reads an amqp URL back into its fields, splitting at the first ':', then
      the first '@', then the first ':', then the first '/'. */
  function ParseUrl(url: string): Option<Config> {
    if |url| < |Scheme| || url[..|Scheme|] != Scheme then None
    else
      match Text.Cut(url[|Scheme|..], ':')
      case None => None
      case Some((user, afterUser)) =>
        match Text.Cut(afterUser, '@')
        case None => None
        case Some((pass, afterPass)) =>
          match Text.Cut(afterPass, ':')
          case None => None
          case Some((host, afterHost)) =>
            match Text.Cut(afterHost, '/')
            case None => None
            case Some((port, vhost)) =>
              match Text.ParseInt(port)
              case None => None
              case Some(p) => Some(Config(RabbitMQ(user, pass, host, p, vhost)))
  }

  /** Fields that cannot be mistaken for the separators around them. */
  predicate Unambiguous(c: Config) {
    ':' !in c.rabbitMQ.username && '@' !in c.rabbitMQ.password && ':' !in c.rabbitMQ.host
  }

  /** The URL holds the fields in the order username, password, host, port,
      vhost, and they can be recovered when none holds its separator. */
  lemma UrlRoundTrip(c: Config)
    requires Unambiguous(c)
    ensures ParseUrl(Url(c)) == Some(c)
  {
    var m := c.rabbitMQ;
    var port := Text.Decimal(m.port);
    var url := Url(c);
    var afterPass := m.host + [':'] + (port + ['/'] + m.vhost);
    var afterUser := m.password + ['@'] + afterPass;
    assert url[..|Scheme|] == Scheme;
    assert url[|Scheme|..] == m.username + [':'] + afterUser;
    Text.CutAt(m.username, ':', afterUser);
    Text.CutAt(m.password, '@', afterPass);
    Text.CutAt(m.host, ':', port + ['/'] + m.vhost);
    assert '/' !in port;
    Text.CutAt(port, '/', m.vhost);
    Text.DecimalRoundTrip(m.port);
  }

  /** Nothing is percent-encoded, so a password holding '@' gives the same URL
      as a different split of the same text between password and host. */
  lemma UrlNotInjective(m: RabbitMQ, before: string, after: string)
    ensures var a := Config(m.(password := before + "@" + after));
            var b := Config(m.(password := before, host := after + "@" + m.host));
            a != b && Url(a) == Url(b)
  {
    var a := Config(m.(password := before + "@" + after));
    var b := Config(m.(password := before, host := after + "@" + m.host));
    assert |a.rabbitMQ.password| != |b.rabbitMQ.password|;
    var tail := ":" + Text.Decimal(m.port) + "/" + m.vhost;
    assert Url(a) == Scheme + m.username + ":" + (before + "@" + after) + "@" + m.host + tail;
    assert Url(b) == Scheme + m.username + ":" + before + "@" + (after + "@" + m.host) + tail;
  }

  /** What Connection() does: give up on a configuration error, or dial a URL. */
  datatype Outcome = Fatal(err: Error) | Dial(url: string)

  /**
   * Connection(): read rabbit.yml; on an error log.Fatal ends the process
   * before any URL is built; otherwise dial the URL of the loaded settings.
   */
  function Connect(file: Result<seq<byte>, Error>, unmarshal: seq<byte> -> Result<Config, Error>): (r: Outcome)
    ensures r.Fatal? <==> file.Err? || unmarshal(file.value).Err?
    ensures r.Dial? ==> r.url == Url(unmarshal(file.value).value)
  {
    var (config, err) := ReadConfig(file, unmarshal);
    if err.Some? then Fatal(err.value) else Dial(Url(config.value))
  }
}
