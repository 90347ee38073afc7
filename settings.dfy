/**
  Connection options of `SphinxSearchBackend.__init__`: the host and port
  default to the loopback address and the SphinxQL port, and the index name
  is required.
*/
module Settings {
  import opened Wrappers
  import opened Values

  const DefaultHost: string := "127.0.0.1"
  const DefaultPort: int := 9306

  /** What construction keeps: `conn_kwargs` (host, port) and `index_name`. */
  datatype Config = Config(host: Scalar, port: Scalar, indexName: Scalar)
  {
    /** The index name as `str.format` writes it into a statement. */
    function IndexText(): string
    {
      ToUnicode(indexName)
    }
  }

  datatype ConfigError = ImproperlyConfigured(message: string)

  /** `options.get(key, default)`. */
  function Get(options: map<string, Scalar>, key: string, default: Scalar): Scalar
  {
    if key in options then options[key] else default
  }

  /** The message raised when `key` is missing. */
  function MissingIndexMessage(key: string): string
  {
    "Missing index name for sphinx-haystack. Please define " + key + "."
  }

  /**
    Option handling of the backend's constructor: it succeeds exactly when
    INDEX_NAME is given; HOST and PORT fall back to 127.0.0.1 and 9306; the
    error names the missing key.
  */
  function FromOptions(options: map<string, Scalar>): (r: Result<Config, ConfigError>)
    ensures r.Success? <==> "INDEX_NAME" in options
    ensures r.Success? ==> r.value.indexName == options["INDEX_NAME"]
    ensures r.Success? && "HOST" !in options ==> r.value.host == Str("127.0.0.1")
    ensures r.Success? && "HOST" in options ==> r.value.host == options["HOST"]
    ensures r.Success? && "PORT" !in options ==> r.value.port == Int(9306)
    ensures r.Success? && "PORT" in options ==> r.value.port == options["PORT"]
    ensures r.Failure? ==>
      r.error == ImproperlyConfigured("Missing index name for sphinx-haystack. Please define INDEX_NAME.")
  {
    var host := Get(options, "HOST", Str(DefaultHost));
    var port := Get(options, "PORT", Int(DefaultPort));
    if "INDEX_NAME" in options then Success(Config(host, port, options["INDEX_NAME"]))
    else Failure(ImproperlyConfigured(MissingIndexMessage("INDEX_NAME")))
  }
}
