/** The WooCommerce REST client service of Service.go: configuration checks
    and the credential token, endpoint URLs, the list formatter for query
    parameters and the reader of the total-pages response header. */
module WooCommerce {
  import opened Wrappers
  import GoStrings
  import Base64Url
  import Decimal

  const ApiNameValue: string := "WooCommerce"
  const ApiPath: string := "wp-json/wc/v2"
  const TotalPagesHeader: string := "X-WP-TotalPages"

  /** `errortools.Error`, reduced to its message. */
  datatype Error = Error(message: string)

  /** `ServiceConfig`: the three settings a caller supplies. */
  datatype ServiceConfig = ServiceConfig(host: string, consumerKey: string, consumerSecret: string)

  /** `fmt.Sprintf("%s:%s", key, secret)`: the credentials joined by a colon. */
  function Credentials(consumerKey: string, consumerSecret: string): string {
    consumerKey + ":" + consumerSecret
  }

  /** The token: base64url of the UTF-8 bytes of the credentials. */
  function Token(consumerKey: string, consumerSecret: string): (t: string)
    ensures Base64Url.Decode(t) == Some(GoStrings.Bytes(Credentials(consumerKey, consumerSecret)))
  {
    Base64Url.DecodeEncode(GoStrings.Bytes(Credentials(consumerKey, consumerSecret)));
    Base64Url.Encode(GoStrings.Bytes(Credentials(consumerKey, consumerSecret)))
  }

  /** A constructed `Service`: the host and the token are fixed at construction.
      The HTTP transport it also holds is not part of this model. */
  datatype Service = Service(host: string, token: string) {

    /** `url(path)`: the host, the API path and the resource path, joined by
        slashes; the path is not checked. */
    function Url(path: string): (r: string)
      ensures |r| == |host| + |"/wp-json/wc/v2/"| + |path|
      ensures r[..|host|] == host
      ensures r[|host|..|host| + |"/wp-json/wc/v2/"|] == "/wp-json/wc/v2/"
      ensures r[|host| + |"/wp-json/wc/v2/"|..] == path
    {
      host + "/" + ApiPath + "/" + path
    }

    /** `ApiName()`: the same name for every service. */
    function ApiName(): (name: string)
      ensures name == "WooCommerce"
    {
      ApiNameValue
    }

    /** `ApiKey()`: the stored token. */
    function ApiKey(): (key: string)
      ensures key == token
    {
      token
    }

    /** The value `httpRequest` gives the `Authorization` header. */
    function AuthorizationValue(): (v: string)
      ensures |v| == 6 + |token| && v[..6] == "Basic " && v[6..] == token
    {
      "Basic " + token
    }
  }

  /** The checks `NewService` makes, in its order, each failed one as its
      message: the reference against which `NewService` is proved. */
  function Violations(config: Option<ServiceConfig>): seq<string> {
    match config
    case None => ["ServiceConfig must not be a nil pointer"]
    case Some(c) =>
      (if c.host == "" then ["Host not provided"] else [])
      + (if c.consumerKey == "" then ["ConsumerKey not provided"] else [])
      + (if c.consumerSecret == "" then ["ConsumerSecret not provided"] else [])
  }

  /** `NewService(config)`. A nil config is `None`; `transportError` is what
      constructing the HTTP transport returned. The first failed check wins;
      only then can the transport fail; otherwise the service keeps the host
      and the token of the credentials. No service comes with an error. */
  function NewService(config: Option<ServiceConfig>, transportError: Option<Error>): (r: Result<Service, Error>)
    ensures Violations(config) != [] ==> r == Err(Error(Violations(config)[0]))
    ensures Violations(config) == [] && transportError.Some? ==> r == Err(transportError.value)
    ensures r.Ok? <==> Violations(config) == [] && transportError.None?
    ensures r.Ok? ==> r.value.host == config.value.host != ""
    ensures r.Ok? ==> r.value.token == Token(config.value.consumerKey, config.value.consumerSecret)
    ensures r.Ok? ==> Base64Url.Decode(r.value.token) == Some(GoStrings.Bytes(Credentials(config.value.consumerKey, config.value.consumerSecret)))
  {
    if config.None? then Err(Error("ServiceConfig must not be a nil pointer"))
    else if config.value.host == "" then Err(Error("Host not provided"))
    else if config.value.consumerKey == "" then Err(Error("ConsumerKey not provided"))
    else if config.value.consumerSecret == "" then Err(Error("ConsumerSecret not provided"))
    else if transportError.Some? then Err(transportError.value)
    else
      Ok(Service(config.value.host, Token(config.value.consumerKey, config.value.consumerSecret)))
  }

  /** The bytes of the credentials: the key's, one colon byte, the secret's. */
  lemma CredentialBytes(consumerKey: string, consumerSecret: string)
    ensures GoStrings.Bytes(Credentials(consumerKey, consumerSecret))
            == GoStrings.Bytes(consumerKey) + [':' as int] + GoStrings.Bytes(consumerSecret)
    ensures |GoStrings.Bytes(Credentials(consumerKey, consumerSecret))|
            == |GoStrings.Bytes(consumerKey)| + 1 + |GoStrings.Bytes(consumerSecret)|
  {
    GoStrings.BytesAppend(consumerKey + ":", consumerSecret);
    GoStrings.BytesAppend(consumerKey, ":");
    assert GoStrings.Bytes(":") == [':' as int];
  }

  /** The token has four characters per three bytes of the credentials,
      rounded up, drawn from the base64url alphabet and `=`. */
  lemma TokenShape(consumerKey: string, consumerSecret: string)
    ensures |Token(consumerKey, consumerSecret)|
            == Base64Url.EncodedLength(|GoStrings.Bytes(Credentials(consumerKey, consumerSecret))|)
    ensures |GoStrings.Bytes(Credentials(consumerKey, consumerSecret))|
            == |GoStrings.Bytes(consumerKey)| + 1 + |GoStrings.Bytes(consumerSecret)|
    ensures Base64Url.InPaddedAlphabet(Token(consumerKey, consumerSecret))
  {
    CredentialBytes(consumerKey, consumerSecret);
  }

  /** Decoding the token, then reading its bytes as UTF-8, gives back
      `ConsumerKey:ConsumerSecret`. */
  lemma TokenDecodes(consumerKey: string, consumerSecret: string)
    ensures var d := Base64Url.Decode(Token(consumerKey, consumerSecret));
            d.Some? && GoStrings.DecodeUtf8(d.value) == Some(consumerKey + ":" + consumerSecret)
  {
    var text := Credentials(consumerKey, consumerSecret);
    Base64Url.DecodeEncode(GoStrings.Bytes(text));
    GoStrings.DecodeBytes(text);
  }

  /** The token is longer than the key and the secret together, so it is
      never the raw secret. */
  lemma TokenIsNotSecret(consumerKey: string, consumerSecret: string)
    ensures |Token(consumerKey, consumerSecret)| > |consumerKey| + |consumerSecret|
    ensures Token(consumerKey, consumerSecret) != consumerSecret
  {
    var bytes := GoStrings.Bytes(Credentials(consumerKey, consumerSecret));
    CredentialBytes(consumerKey, consumerSecret);
    Base64Url.EncodeLonger(bytes);
  }

  /** What `ApiKey` and `ApiName` give on a service that `NewService` built:
      the name, and a token that decodes to `ConsumerKey:ConsumerSecret` but
      is not the raw secret. */
  lemma NewServiceAccessors(config: ServiceConfig, service: Service)
    requires NewService(Some(config), None) == Ok(service)
    ensures service.ApiName() == "WooCommerce"
    ensures service.ApiKey() != config.consumerSecret
    ensures GoStrings.DecodeUtf8(Base64Url.Decode(service.ApiKey()).value)
            == Some(config.consumerKey + ":" + config.consumerSecret)
  {
    assert service == Service(config.host, Token(config.consumerKey, config.consumerSecret));
    TokenDecodes(config.consumerKey, config.consumerSecret);
    TokenIsNotSecret(config.consumerKey, config.consumerSecret);
  }

  /** Different resource paths always give different URLs. */
  lemma UrlInjective(service: Service, p1: string, p2: string)
    requires service.Url(p1) == service.Url(p2)
    ensures p1 == p2
  {
    var k := |service.host| + |"/wp-json/wc/v2/"|;
    assert p1 == service.Url(p1)[k..];
  }

  /** Every number as `%v` writes it, in input order. */
  function FormatAll(uints: seq<nat>): seq<string> {
    seq(|uints|, i requires 0 <= i < |uints| => Decimal.FormatUint(uints[i]))
  }

  /** `UIntArrayToString(unints)`: appends the decimal text of each number to a
      list, then joins the list with commas. */
  method UIntArrayToString(uints: seq<nat>) returns (s: string)
    ensures s == GoStrings.Join(FormatAll(uints), ",")
    ensures uints == [] ==> s == ""
    ensures uints != [] ==> GoStrings.Count(s, ',') == |uints| - 1
    ensures ParseUIntList(s) == Some(uints)
  {
    var ids: seq<string> := [];
    for i := 0 to |uints|
      invariant |ids| == i
      invariant forall k :: 0 <= k < i ==> ids[k] == Decimal.FormatUint(uints[k])
    {
      ids := ids + [Decimal.FormatUint(uints[i])];
    }
    assert ids == FormatAll(uints);
    s := GoStrings.Join(ids, ",");
    ListRoundTrip(uints);
  }

  /** Reads comma-separated decimal numbers back: the inverse of
      `UIntArrayToString`. The empty text is the empty list. */
  function ParseUIntList(s: string): (r: Option<seq<nat>>)
    ensures r.Some? && s != [] ==> |r.value| == GoStrings.Count(s, ',') + 1
  {
    if s == [] then Some([]) else ParsePieces(GoStrings.Split(s, ','))
  }

  /** Reads each piece as a non-empty digit string. */
  function ParsePieces(pieces: seq<string>): (r: Option<seq<nat>>)
    ensures r.Some? ==> |r.value| == |pieces|
    decreases |pieces|
  {
    if pieces == [] then Some([])
    else if |pieces[0]| > 0 && Decimal.AllDigits(pieces[0]) then
      match ParsePieces(pieces[1..])
      case None => None
      case Some(rest) => Some([Decimal.DigitsValue(pieces[0])] + rest)
    else None
  }

  lemma {:induction false} ParseFormatAll(uints: seq<nat>)
    ensures ParsePieces(FormatAll(uints)) == Some(uints)
    decreases |uints|
  {
    if uints != [] {
      var pieces := FormatAll(uints);
      assert pieces[1..] == FormatAll(uints[1..]);
      ParseFormatAll(uints[1..]);
      Decimal.DigitsValueFormat(uints[0]);
      assert [uints[0]] + uints[1..] == uints;
    }
  }

  /** Splitting the formatted list on commas and reading each piece gives the
      numbers back in order; a list of k numbers has k - 1 commas. */
  lemma ListRoundTrip(uints: seq<nat>)
    ensures ParseUIntList(GoStrings.Join(FormatAll(uints), ",")) == Some(uints)
    ensures uints != [] ==> GoStrings.Count(GoStrings.Join(FormatAll(uints), ","), ',') == |uints| - 1
  {
    var pieces := FormatAll(uints);
    if uints != [] {
      forall i | 0 <= i < |pieces|
        ensures ',' !in pieces[i]
      {
        assert Decimal.AllDigits(pieces[i]);
      }
      GoStrings.SplitJoin(pieces, ',');
      assert GoStrings.Join(pieces, [',']) != [];
      ParseFormatAll(uints);
    }
  }

  /** An HTTP response, reduced to its headers; keys are matched exactly. */
  datatype Response = Response(header: map<string, string>)

  /** `Header.Get`: the value of a header, or the empty string. */
  function HeaderGet(header: map<string, string>, key: string): (v: string)
    ensures key in header ==> v == header[key]
    ensures key !in header ==> v == ""
  {
    if key in header then header[key] else ""
  }

  /** `TotalPages(response)`: no response is zero pages and no error; otherwise
      the `X-WP-TotalPages` header is read by `strconv.Atoi`, and a failure is
      zero pages and an error naming the header. */
  function TotalPages(response: Option<Response>): (r: (int, Option<Error>))
    ensures response.None? ==> r == (0, None)
    ensures r.1.Some? ==> r.0 == 0
    ensures r.1.Some? ==> "Error while retrieving " + TotalPagesHeader + " header" <= r.1.value.message
    ensures response.Some? ==>
              var a := Decimal.Atoi(HeaderGet(response.value.header, TotalPagesHeader));
              a.Err? ==> r.1 == Some(Error(("Error while retrieving " + TotalPagesHeader + " header")
                                           + (" (" + Decimal.NumErrorMessage(a.error) + ")")))
  {
    match response
    case None => (0, None)
    case Some(resp) =>
      match Decimal.Atoi(HeaderGet(resp.header, TotalPagesHeader))
      case Ok(n) => (n, None)
      case Err(e) =>
        var message := ("Error while retrieving " + TotalPagesHeader + " header") + (" (" + Decimal.NumErrorMessage(e) + ")");
        (0, Some(Error(message)))
  }

  /** A present response succeeds exactly when its header holds a decimal
      number within the 64-bit range, and then yields that number; an
      absent header is an error. */
  lemma TotalPagesOfHeader(header: map<string, string>)
    ensures var v := HeaderGet(header, TotalPagesHeader);
            var r := TotalPages(Some(Response(header)));
            (r.1.None? <==> Decimal.IsDecimal(v) && Decimal.MinInt <= Decimal.DecimalValue(v) <= Decimal.MaxInt)
            && (r.1.None? ==> r.0 == Decimal.DecimalValue(v))
    ensures TotalPagesHeader !in header ==> TotalPages(Some(Response(header))).1.Some?
  {
  }

  /** Without the header, `Atoi` sees the empty string, and the error says so
      in full. */
  lemma TotalPagesMissingHeader(header: map<string, string>)
    requires TotalPagesHeader !in header
    ensures TotalPages(Some(Response(header)))
            == (0, Some(Error(("Error while retrieving " + TotalPagesHeader + " header")
                              + (" (" + Decimal.NumErrorMessage(Decimal.NumError("Atoi", "", Decimal.ErrSyntax)) + ")"))))
  {
    assert HeaderGet(header, TotalPagesHeader) == "";
  }

  /** A response whose header holds the text of n yields n, with no error. */
  lemma TotalPagesRoundTrip(n: int)
    requires Decimal.MinInt <= n <= Decimal.MaxInt
    ensures TotalPages(Some(Response(map[TotalPagesHeader := Decimal.FormatInt(n)]))) == (n, None)
  {
    Decimal.AtoiFormatInt(n);
  }
}
