/** The request decision of `SwaggerAuthMiddleware.InvokeAsync`: a request
    for a Swagger document whose credentials are configured is forwarded only
    when it carries matching HTTP Basic credentials (section 2 of RFC 7617);
    otherwise it is answered with 401 and a `WWW-Authenticate` challenge
    (section 4.1 of RFC 7235). Every other request is forwarded untouched. */
module AuthMiddleware {
  import opened Wrappers
  import opened Text
  import opened AuthOptions
  import Base64

  const SwaggerSegment: string := "/swagger/"
  const SwaggerJson: string := "/swagger.json"
  /** The authentication scheme prefix, matched case-sensitively. */
  const BasicPrefix: string := "Basic "

  /** The parts of an HTTP request the middleware reads: the path (`null`
      when the request has none) and the first `Authorization` header value. */
  datatype Request = Request(path: Option<string>, authorization: Option<string>)

  /** What the middleware does with a request: hand it to the next stage
      untouched, or answer it itself. */
  datatype Decision =
    | Forward
    | Reject(status: int, challenge: string, body: string)

  /** The configuration as a key-to-value map; a missing key reads as `null`. */
  type Configuration = map<string, string>

  /** Decoding of UTF-8 bytes to text. It never fails: invalid sequences
      become replacement characters, so it is a total function. */
  type Utf8Decoder = seq<Base64.byte> -> string

  function Lookup(config: Configuration, key: string): Option<string> {
    if key in config then Some(config[key]) else None
  }

  /** `string.IsNullOrEmpty`. */
  predicate IsNullOrEmpty(v: Option<string>) {
    v.None? || v.value == []
  }

  /** The realm challenge sent with a rejection. */
  function Challenge(doc: string): (r: string)
    ensures |r| == |doc| + 32
    ensures r[..13] == "Basic realm=\"" && r[13 + |doc|..] == " API Documentation\""
    ensures r[13..13 + |doc|] == doc
  {
    "Basic realm=\"" + doc + " API Documentation\""
  }

  /** The plain-text body sent with a rejection. */
  function Message(doc: string): (r: string)
    ensures |r| == |doc| + 76
    ensures r[..23] == "Unauthorized access to "
    ensures r[23..23 + |doc|] == doc
    ensures r[23 + |doc|..] == " API documentation. Please provide valid credentials."
  {
    "Unauthorized access to " + doc + " API documentation. Please provide valid credentials."
  }

  /** The document name between the first `/swagger/` and the first
      `/swagger.json` of the path, or `None` when either is missing or the
      second does not start after the end of the first. */
  function ExtractDocName(path: string): (r: Option<string>)
    ensures r.Some? ==> r.value != []
    ensures r.Some? <==>
      exists i, j :: IsFirstOccurrence(path, SwaggerSegment, i) && IsFirstOccurrence(path, SwaggerJson, j)
                     && i + |SwaggerSegment| < j
    ensures forall i, j ::
      (IsFirstOccurrence(path, SwaggerSegment, i) && IsFirstOccurrence(path, SwaggerJson, j)
       && i + |SwaggerSegment| < j) ==> r == Some(path[i + |SwaggerSegment|..j])
  {
    if Contains(path, SwaggerSegment) && Contains(path, SwaggerJson) then
      var startIndex := IndexOf(path, SwaggerSegment).value + |SwaggerSegment|;
      var endIndex := IndexOf(path, SwaggerJson).value;
      if startIndex > 0 && endIndex > startIndex then Some(path[startIndex..endIndex]) else None
    else
      None
  }

  /** `IsDocumentConfiguredForAuth`: both credentials of the document are
      present and non-empty. */
  predicate IsDocumentConfiguredForAuth(config: Configuration, section: string, doc: string): (b: bool)
    ensures b <==> UsernameKey(section, doc) in config && config[UsernameKey(section, doc)] != []
                   && PasswordKey(section, doc) in config && config[PasswordKey(section, doc)] != []
  {
    !IsNullOrEmpty(Lookup(config, UsernameKey(section, doc)))
    && !IsNullOrEmpty(Lookup(config, PasswordKey(section, doc)))
  }

  /** `IsAuthorizedForDocAsync`: the header is `Basic ` followed by base64
      text that decodes to `user:password` matching the configured pair.
      A decoding failure, which .NET raises as an exception and the source
      catches, is `false` here. */
  function IsAuthorizedForDoc(header: Option<string>, config: Configuration, section: string,
                              doc: string, utf8: Utf8Decoder): (r: bool)
    ensures IsNullOrEmpty(header) ==> !r
    ensures header.Some? && !(BasicPrefix <= header.value) ==> !r
    ensures r ==> Base64.Decode(header.value[|BasicPrefix|..]).Some?
  {
    if IsNullOrEmpty(header) || !(BasicPrefix <= header.value) then false
    else
      var encoded := header.value[|BasicPrefix|..];
      match Base64.Decode(encoded)
      case None => false
      case Some(bytes) =>
        match SplitFirst(utf8(bytes), ':')
        case None => false
        case Some(parts) =>
          Some(parts.0) == Lookup(config, UsernameKey(section, doc))
          && Some(parts.1) == Lookup(config, PasswordKey(section, doc))
  }

  /** `InvokeAsync`. */
  function Invoke(req: Request, config: Configuration, options: Options, utf8: Utf8Decoder): (d: Decision)
    ensures d.Reject? ==> d.status == 401
    ensures d.Reject? ==>
      req.path.Some? && ExtractDocName(Lower(req.path.value)).Some?
      && var doc := ExtractDocName(Lower(req.path.value)).value;
         d.challenge == Challenge(doc) && d.body == Message(doc)
  {
    match req.path
    case None => Forward
    case Some(raw) =>
      var path := Lower(raw);
      if !Contains(path, SwaggerSegment) then Forward
      else
        match ExtractDocName(path)
        case None => Forward
        case Some(docName) =>
          if docName != [] && IsDocumentConfiguredForAuth(config, options.configurationSection, docName)
             && !IsAuthorizedForDoc(req.authorization, config, options.configurationSection, docName, utf8)
          then Reject(401, Challenge(docName), Message(docName))
          else Forward
  }
}
