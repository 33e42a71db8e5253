/** Properties of the middleware decision, each relating an operation to an
    independent description of what it should do. */
module MiddlewareProperties {
  import opened Wrappers
  import opened Text
  import opened AuthOptions
  import Base64
  import opened AuthMiddleware

  /* ---------------- document-name extraction ---------------- */

  /** A document name the path pattern can carry: non-empty, without `/`,
      and not itself beginning with `swagger.json` (which would make the
      first `/swagger.json` start at the slash that ends `/swagger/`). */
  predicate ExtractableName(name: string) {
    name != [] && '/' !in name && !("swagger.json" <= name)
  }

  /** `/swagger/{name}/swagger.json`, followed by anything (the test is
      `Contains`, not a suffix test), yields exactly `name`. */
  lemma {:induction false} ExtractRoundTrip(name: string, rest: string)
    requires ExtractableName(name)
    ensures ExtractDocName(SwaggerSegment + name + SwaggerJson + rest) == Some(name)
  {
    var path := SwaggerSegment + name + SwaggerJson + rest;
    var end := |SwaggerSegment| + |name|;
    assert path[..9] == SwaggerSegment;
    assert path[9..end] == name;
    assert path[end..end + 13] == SwaggerJson;
    assert IsFirstOccurrence(path, SwaggerSegment, 0);
    forall k | 0 <= k < end
      ensures !OccursAt(path, SwaggerJson, k)
    {
      if k + 13 <= |path| {
        var w := path[k..k + 13];
        if k == 0 {
          assert w[8] == path[8] == '/' != SwaggerJson[8];
        } else if k < 8 {
          assert w[0] == path[k] == SwaggerSegment[k] != '/';
        } else if k == 8 {
          if |name| >= 12 {
            assert w[1..] == path[9..21] == name[..12] != SwaggerJson[1..];
          } else {
            assert w[end - 8] == path[end] == '/' != SwaggerJson[end - 8];
          }
        } else {
          assert w[0] == path[k] == name[k - 9] != '/';
        }
      }
    }
    assert IsFirstOccurrence(path, SwaggerJson, end);
  }

  /** `/swagger//swagger.json` names no document: the first `/swagger.json`
      begins right where the name would start, so the name would be empty. */
  lemma EmptyNameNotExtracted()
    ensures ExtractDocName("/swagger//swagger.json") == None
  {
    var path := "/swagger//swagger.json";
    assert path == SwaggerSegment + SwaggerJson;
    assert IsFirstOccurrence(path, SwaggerSegment, 0) by {
      assert path[0..9] == SwaggerSegment;
    }
    assert IsFirstOccurrence(path, SwaggerJson, 9) by {
      assert path[9..22] == SwaggerJson;
      forall k | 0 <= k < 9
        ensures !OccursAt(path, SwaggerJson, k)
      {
        var w := path[k..k + 13];
        if k == 0 {
          assert w[8] == path[8] == '/' != SwaggerJson[8];
        } else if k < 8 {
          assert w[0] == path[k] != '/';
        } else {
          assert w[1] == path[9] == '/' != SwaggerJson[1];
        }
      }
    }
  }

  /** Extraction runs on the lower-cased path, so every name it yields is
      lower-case. */
  lemma ExtractedNameIsLowerCase(raw: string)
    requires ExtractDocName(Lower(raw)).Some?
    ensures IsLowerCase(ExtractDocName(Lower(raw)).value)
  {
    var path := Lower(raw);
    var i := IndexOf(path, SwaggerSegment).value;
    var j := IndexOf(path, SwaggerJson).value;
    assert ExtractDocName(path).value == path[i + |SwaggerSegment|..j];
  }

  /** Whether a document needs authentication depends only on its own two
      keys: setting any key of another document leaves the answer unchanged. */
  lemma ConfiguredIgnoresOtherDocuments(config: Configuration, section: string, doc: string,
                                        other: string, key: string, value: string)
    requires other != doc
    requires key == UsernameKey(section, other) || key == PasswordKey(section, other)
    ensures IsDocumentConfiguredForAuth(config[key := value], section, doc)
         == IsDocumentConfiguredForAuth(config, section, doc)
  {
    KeysDistinct(section, doc, other);
    KeysDistinct(section, other, doc);
  }

  /** The challenge and the message each name the document unambiguously:
      two documents share one only if they are the same document. */
  lemma RejectionNamesDocument(d1: string, d2: string)
    ensures Challenge(d1) == Challenge(d2) <==> d1 == d2
    ensures Message(d1) == Message(d2) <==> d1 == d2
  {
    if Challenge(d1) == Challenge(d2) {
      assert |d1| == |d2|;
      assert d1 == Challenge(d1)[13..13 + |d1|];
    }
    if Message(d1) == Message(d2) {
      assert |d1| == |d2|;
      assert d1 == Message(d1)[23..23 + |d1|];
    }
  }

  /* ---------------- credential validation ---------------- */

  /** The whole meaning of `IsAuthorizedForDoc`: the header starts with
      `Basic `, the rest is valid base64, both credentials are configured,
      the configured user name has no colon, and the decoded text is exactly
      `user:password`. Everything else, including a header in another
      scheme or another case, is unauthorized. */
  lemma AuthorizedIff(header: Option<string>, config: Configuration, section: string,
                      doc: string, utf8: Utf8Decoder)
    ensures IsAuthorizedForDoc(header, config, section, doc, utf8) <==>
      && header.Some? && BasicPrefix <= header.value
      && Base64.Decode(header.value[|BasicPrefix|..]).Some?
      && UsernameKey(section, doc) in config && PasswordKey(section, doc) in config
      && ':' !in config[UsernameKey(section, doc)]
      && utf8(Base64.Decode(header.value[|BasicPrefix|..]).value)
         == config[UsernameKey(section, doc)] + [':'] + config[PasswordKey(section, doc)]
  {
    if header.Some? && BasicPrefix <= header.value && Base64.Decode(header.value[|BasicPrefix|..]).Some?
       && UsernameKey(section, doc) in config && PasswordKey(section, doc) in config {
      var text := utf8(Base64.Decode(header.value[|BasicPrefix|..]).value);
      var u, p := config[UsernameKey(section, doc)], config[PasswordKey(section, doc)];
      if ':' !in u && text == u + [':'] + p {
        SplitFirstOfJoin(u, ':', p);
      }
    }
  }

  /** A client that sends `Basic ` and the base64 encoding of bytes which
      decode to the configured `user:password` is authorized. */
  lemma AcceptsEncodedCredentials(bytes: seq<Base64.byte>, config: Configuration, section: string,
                                  doc: string, utf8: Utf8Decoder)
    requires UsernameKey(section, doc) in config && PasswordKey(section, doc) in config
    requires ':' !in config[UsernameKey(section, doc)]
    requires utf8(bytes) == config[UsernameKey(section, doc)] + [':'] + config[PasswordKey(section, doc)]
    ensures IsAuthorizedForDoc(Some(BasicPrefix + Base64.Encode(bytes)), config, section, doc, utf8)
  {
    var header := BasicPrefix + Base64.Encode(bytes);
    assert header[|BasicPrefix|..] == Base64.Encode(bytes);
    Base64.DecodeEncode(bytes);
    AuthorizedIff(Some(header), config, section, doc, utf8);
  }

  /** The split is on the first colon, so a configured user name that holds
      a colon can never be matched, whatever the header. */
  lemma ColonInUserNameNeverAuthorized(header: Option<string>, config: Configuration, section: string,
                                       doc: string, utf8: Utf8Decoder)
    requires UsernameKey(section, doc) in config && ':' in config[UsernameKey(section, doc)]
    ensures !IsAuthorizedForDoc(header, config, section, doc, utf8)
  {
    AuthorizedIff(header, config, section, doc, utf8);
  }

  /* ---------------- the request decision ---------------- */

  /** A request without a path, or whose lower-cased path has no
      `/swagger/`, is forwarded. */
  lemma ForwardsNonSwaggerPaths(req: Request, config: Configuration, options: Options, utf8: Utf8Decoder)
    requires req.path.None? || forall i :: !OccursAt(Lower(req.path.value), SwaggerSegment, i)
    ensures Invoke(req, config, options, utf8) == Forward
  {
  }

  /** The middleware rejects exactly when the path names a document, that
      document has both credentials configured, and the request's header
      does not carry them. */
  lemma RejectIff(req: Request, config: Configuration, options: Options, utf8: Utf8Decoder)
    ensures Invoke(req, config, options, utf8).Reject? <==>
      && req.path.Some? && ExtractDocName(Lower(req.path.value)).Some?
      && var doc := ExtractDocName(Lower(req.path.value)).value;
         && IsDocumentConfiguredForAuth(config, options.configurationSection, doc)
         && !IsAuthorizedForDoc(req.authorization, config, options.configurationSection, doc, utf8)
  {
  }

  /** Fail-open: when either credential of the requested document is missing
      or empty, the request is forwarded whatever its `Authorization` header
      holds, including none. */
  lemma FailOpen(req: Request, config: Configuration, options: Options, utf8: Utf8Decoder)
    requires req.path.Some? && ExtractDocName(Lower(req.path.value)).Some?
    requires var doc := ExtractDocName(Lower(req.path.value)).value;
      IsNullOrEmpty(Lookup(config, UsernameKey(options.configurationSection, doc)))
      || IsNullOrEmpty(Lookup(config, PasswordKey(options.configurationSection, doc)))
    ensures Invoke(req, config, options, utf8) == Forward
  {
    RejectIff(req, config, options, utf8);
  }

  /** Path matching ignores letter case: a request decides as its
      lower-cased path would. */
  lemma PathCaseIgnored(req: Request, config: Configuration, options: Options, utf8: Utf8Decoder)
    requires req.path.Some?
    ensures Invoke(req, config, options, utf8)
         == Invoke(req.(path := Some(Lower(req.path.value))), config, options, utf8)
  {
    LowerIdempotent(req.path.value);
  }

  /** Only the configuration section of the options is read: the
      require-for-all flag and the custom error message change nothing. */
  lemma UnusedOptionsIgnored(req: Request, config: Configuration, o1: Options, o2: Options, utf8: Utf8Decoder)
    requires o1.configurationSection == o2.configurationSection
    ensures Invoke(req, config, o1, utf8) == Invoke(req, config, o2, utf8)
  {
  }

  /** Lower-casing distributes over concatenation. */
  lemma LowerAppend(a: string, b: string)
    ensures Lower(a + b) == Lower(a) + Lower(b)
  {
  }

  /** End to end, for a request to `/swagger/{name}/swagger.json...` in any
      letter case: the document is the lower-cased name; the request is
      rejected, with the challenge and message for that document, exactly
      when its credentials are configured and the header does not match
      them. */
  lemma {:induction false} DocumentRequestDecision(name: string, rest: string, header: Option<string>,
                                                   config: Configuration, options: Options, utf8: Utf8Decoder)
    requires ExtractableName(Lower(name))
    ensures var doc := Lower(name);
      var section := options.configurationSection;
      Invoke(Request(Some(SwaggerSegment + name + SwaggerJson + rest), header), config, options, utf8)
      == if IsDocumentConfiguredForAuth(config, section, doc) && !IsAuthorizedForDoc(header, config, section, doc, utf8)
         then Reject(401, Challenge(doc), Message(doc))
         else Forward
  {
    var raw := SwaggerSegment + name + SwaggerJson + rest;
    LowerAppend(SwaggerSegment + name + SwaggerJson, rest);
    LowerAppend(SwaggerSegment + name, SwaggerJson);
    LowerAppend(SwaggerSegment, name);
    LowerOfLowerCase(SwaggerSegment);
    LowerOfLowerCase(SwaggerJson);
    assert Lower(raw) == SwaggerSegment + Lower(name) + SwaggerJson + Lower(rest);
    ExtractRoundTrip(Lower(name), Lower(rest));
    RejectIff(Request(Some(raw), header), config, options, utf8);
  }
}
