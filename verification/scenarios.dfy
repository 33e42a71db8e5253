/** Concrete requests and encodings: the test vectors of section 10 of
    RFC 4648, and the behaviour promised for a document `v1-admin` whose
    configured credentials are `admin` / `secret`. */
module Scenarios {
  import opened Wrappers
  import opened Text
  import opened AuthOptions
  import Base64
  import opened AuthMiddleware
  import opened MiddlewareProperties

  predicate IsAscii(s: string) {
    forall i :: 0 <= i < |s| ==> s[i] as int < 128
  }

  /** The bytes of an ASCII string; UTF-8 encodes ASCII one byte per character. */
  function AsciiBytes(s: string): (b: seq<Base64.byte>)
    requires IsAscii(s)
    ensures |b| == |s|
    ensures forall i :: 0 <= i < |s| ==> b[i] == s[i] as int
  {
    seq(|s|, i requires 0 <= i < |s| => s[i] as int)
  }

  /** A UTF-8 decoder that is correct on ASCII text, as every UTF-8 decoder is. */
  ghost predicate DecodesAscii(utf8: Utf8Decoder) {
    forall s :: IsAscii(s) ==> utf8(AsciiBytes(s)) == s
  }

  /* ---------------- base64 test vectors (section 10 of RFC 4648) ---------------- */

  /** Encoding one quantum at a time: the first three bytes, then the rest. */
  lemma EncodeQuantum(b: seq<Base64.byte>, x: string, y: string)
    requires |b| >= 3
    requires Base64.EncodeTriple(b[0], b[1], b[2]) == x && Base64.Encode(b[3..]) == y
    ensures Base64.Encode(b) == x + y
  {
    Base64.EncodeCons(b);
  }

  lemma EncodeVectorsUpToThree()
    ensures Base64.Encode(AsciiBytes("")) == ""
    ensures Base64.Encode(AsciiBytes("f")) == "Zg=="
    ensures Base64.Encode(AsciiBytes("fo")) == "Zm8="
    ensures Base64.Encode(AsciiBytes("foo")) == "Zm9v"
  {
    assert AsciiBytes("f") == [102];
    assert AsciiBytes("fo") == [102, 111];
    assert AsciiBytes("foo") == [102, 111, 111];
  }

  lemma FooQuantum()
    ensures Base64.EncodeTriple(102, 111, 111) == "Zm9v"
  {
  }

  lemma EncodeVectorFoob()
    ensures Base64.Encode(AsciiBytes("foob")) == "Zm9vYg=="
  {
    var b := AsciiBytes("foob");
    assert b == [102, 111, 111, 98];
    assert b[3..] == [98];
    FooQuantum();
    EncodeQuantum(b, "Zm9v", "Yg==");
  }

  lemma EncodeVectorFooba()
    ensures Base64.Encode(AsciiBytes("fooba")) == "Zm9vYmE="
  {
    var b := AsciiBytes("fooba");
    assert b == [102, 111, 111, 98, 97];
    assert b[3..] == [98, 97];
    FooQuantum();
    EncodeQuantum(b, "Zm9v", "YmE=");
  }

  lemma BarQuantum()
    ensures Base64.EncodeTriple(98, 97, 114) == "YmFy"
    ensures Base64.Encode([98, 97, 114]) == "YmFy"
  {
  }

  lemma FoobarEncoding(b: seq<Base64.byte>)
    requires b == [102, 111, 111, 98, 97, 114]
    ensures Base64.Encode(b) == "Zm9vYmFy"
  {
    assert b[3..] == [98, 97, 114];
    FooQuantum();
    BarQuantum();
    EncodeQuantum(b, "Zm9v", "YmFy");
  }

  lemma EncodeVectorFoobar()
    ensures Base64.Encode(AsciiBytes("foobar")) == "Zm9vYmFy"
  {
    FoobarEncoding(AsciiBytes("foobar"));
  }

  /** Decoding the vectors of section 10 of RFC 4648 gives their bytes. */
  lemma DecodeVectorsUpToThree()
    ensures Base64.Decode("") == Some(AsciiBytes(""))
    ensures Base64.Decode("Zg==") == Some(AsciiBytes("f"))
    ensures Base64.Decode("Zm8=") == Some(AsciiBytes("fo"))
    ensures Base64.Decode("Zm9v") == Some(AsciiBytes("foo"))
  {
    EncodeVectorsUpToThree();
    Base64.DecodeEncode(AsciiBytes(""));
    Base64.DecodeEncode(AsciiBytes("f"));
    Base64.DecodeEncode(AsciiBytes("fo"));
    Base64.DecodeEncode(AsciiBytes("foo"));
  }

  lemma DecodeVectorFoob()
    ensures Base64.Decode("Zm9vYg==") == Some(AsciiBytes("foob"))
  {
    EncodeVectorFoob();
    Base64.DecodeEncode(AsciiBytes("foob"));
  }

  lemma DecodeVectorFooba()
    ensures Base64.Decode("Zm9vYmE=") == Some(AsciiBytes("fooba"))
  {
    EncodeVectorFooba();
    Base64.DecodeEncode(AsciiBytes("fooba"));
  }

  lemma DecodeVectorFoobar()
    ensures Base64.Decode("Zm9vYmFy") == Some(AsciiBytes("foobar"))
  {
    EncodeVectorFoobar();
    Base64.DecodeEncode(AsciiBytes("foobar"));
  }

  /** `Basic not-valid-base64!!` carries text with characters outside the
      alphabet, which is refused rather than decoded. */
  lemma NotBase64Refused()
    ensures Base64.Decode("not-valid-base64!!") == None
  {
    Base64.DecodeRejectsForeignChar("not-valid-base64!!", 17);
  }

  /** More than two padding characters are refused. */
  lemma ThreePadsRefused()
    ensures Base64.Decode("Z===") == None
  {
    assert Base64.StripWhitespace("Z===") == "Z===";
  }

  /** Padding inside the text is refused, even when every quantum would be
      valid as a last quantum on its own. */
  lemma InnerPadRefused()
    ensures Base64.Decode("Zg==Zg==") == None
    ensures Base64.Decode("Zg=A") == None
  {
    Base64.DecodeRejectsDataAfterPad("Zg==Zg==", 2, 4);
    Base64.DecodeRejectsDataAfterPad("Zg=A", 2, 3);
  }

  /** A line break inside the encoded text is skipped. */
  lemma LineBreakSkipped(s: string, b: seq<Base64.byte>)
    requires s == "Zm9v\r\nYmFy" && b == [102, 111, 111, 98, 97, 114]
    ensures Base64.Decode(s) == Some(b)
  {
    assert s == "Zm9v" + "\r\n" + "YmFy";
    Base64.DecodeIgnoresWhitespace("Zm9v", "\r\n", "YmFy");
    FoobarEncoding(b);
    Base64.DecodeEncode(b);
    assert "Zm9v" + "YmFy" == "Zm9vYmFy";
  }

  /* ---------------- the v1-admin document ---------------- */

  const AdminDoc: string := "v1-admin"
  const AdminPath: string := "/swagger/v1-admin/swagger.json"

  /** Credentials `admin` / `secret` for `v1-admin` under the default section. */
  function AdminConfig(): Configuration {
    map[UsernameKey(DefaultSection, AdminDoc) := "admin",
        PasswordKey(DefaultSection, AdminDoc) := "secret"]
  }

  /** The 401 answer for `v1-admin`. */
  function AdminRejection(): Decision {
    Reject(401, Challenge(AdminDoc), Message(AdminDoc))
  }

  /** The challenge sent for `v1-admin`. */
  lemma AdminChallenge()
    ensures Challenge("v1-admin") == "Basic realm=\"v1-admin API Documentation\""
  {
  }

  lemma AdminDocIsExtractable()
    ensures ExtractableName(AdminDoc) && Lower(AdminDoc) == AdminDoc
  {
    assert AdminDoc[0] == 'v';
    LowerOfLowerCase(AdminDoc);
  }

  lemma AdminDocConfigured()
    ensures IsDocumentConfiguredForAuth(AdminConfig(), DefaultSection, AdminDoc)
  {
  }

  /** The decision for a request to `/swagger/v1-admin/swagger.json`
      depends on its header only through `IsAuthorizedForDoc`. */
  lemma AdminDecision(header: Option<string>, utf8: Utf8Decoder)
    ensures Invoke(Request(Some(AdminPath), header), AdminConfig(), Defaults(), utf8)
         == if IsAuthorizedForDoc(header, AdminConfig(), DefaultSection, AdminDoc, utf8)
            then Forward else AdminRejection()
  {
    assert AdminPath == SwaggerSegment + AdminDoc + SwaggerJson + "";
    AdminDocIsExtractable();
    AdminDocConfigured();
    DocumentRequestDecision(AdminDoc, "", header, AdminConfig(), Defaults(), utf8);
  }

  lemma AdminSecretBytes(s: string, b: seq<Base64.byte>)
    requires s == "admin:secret" && b == [97, 100, 109, 105, 110, 58, 115, 101, 99, 114, 101, 116]
    ensures IsAscii(s) && AsciiBytes(s) == b
    ensures s == "admin" + [':'] + "secret"
  {
  }

  lemma EncodeSplit(b: seq<Base64.byte>, n: nat, front: string, back: string)
    requires n <= |b| && n % 3 == 0
    requires Base64.Encode(b[..n]) == front && Base64.Encode(b[n..]) == back
    ensures Base64.Encode(b) == front + back
  {
    Base64.EncodeAppend(b[..n], b[n..]);
    assert b[..n] + b[n..] == b;
  }

  /** `YWRtaW46`, the encoding of `admin:`. */
  lemma AdminColonEncoding(b: seq<Base64.byte>)
    requires b == [97, 100, 109, 105, 110, 58]
    ensures Base64.Encode(b) == "YWRtaW46"
  {
    assert Base64.EncodeTriple(97, 100, 109) == "YWRt";
    assert Base64.Encode([105, 110, 58]) == "aW46";
    assert b[3..] == [105, 110, 58];
    EncodeQuantum(b, "YWRt", "aW46");
  }

  lemma SecretEncoding(b: seq<Base64.byte>)
    requires b == [115, 101, 99, 114, 101, 116]
    ensures Base64.Encode(b) == "c2VjcmV0"
  {
    assert Base64.EncodeTriple(115, 101, 99) == "c2Vj";
    assert Base64.Encode([114, 101, 116]) == "cmV0";
    assert b[3..] == [114, 101, 116];
    EncodeQuantum(b, "c2Vj", "cmV0");
  }

  lemma AdminSecretEncoding(b: seq<Base64.byte>)
    requires b == [97, 100, 109, 105, 110, 58, 115, 101, 99, 114, 101, 116]
    ensures Base64.Encode(b) == "YWRtaW46c2VjcmV0"
  {
    AdminColonEncoding(b[..6]);
    SecretEncoding(b[6..]);
    EncodeSplit(b, 6, "YWRtaW46", "c2VjcmV0");
  }

  lemma AdminSecretHeader(b: seq<Base64.byte>)
    requires b == [97, 100, 109, 105, 110, 58, 115, 101, 99, 114, 101, 116]
    ensures BasicPrefix + Base64.Encode(b) == "Basic YWRtaW46c2VjcmV0"
  {
    AdminSecretEncoding(b);
  }

  /** What the configuration holds for `v1-admin`. */
  lemma AdminConfigLookup()
    ensures UsernameKey(DefaultSection, AdminDoc) in AdminConfig()
    ensures PasswordKey(DefaultSection, AdminDoc) in AdminConfig()
    ensures AdminConfig()[UsernameKey(DefaultSection, AdminDoc)] == "admin"
    ensures AdminConfig()[PasswordKey(DefaultSection, AdminDoc)] == "secret"
  {
    KeysDistinct(DefaultSection, AdminDoc, AdminDoc);
  }

  /** `Basic YWRtaW46c2VjcmV0`, the encoding of `admin:secret`, is let through. */
  lemma CorrectCredentialsForwarded(utf8: Utf8Decoder)
    requires DecodesAscii(utf8)
    ensures Invoke(Request(Some(AdminPath), Some("Basic YWRtaW46c2VjcmV0")), AdminConfig(), Defaults(), utf8)
         == Forward
  {
    var b: seq<Base64.byte> := [97, 100, 109, 105, 110, 58, 115, 101, 99, 114, 101, 116];
    AdminSecretBytes("admin:secret", b);
    assert utf8(b) == "admin" + [':'] + "secret";
    AdminConfigLookup();
    assert ':' !in "admin";
    AcceptsEncodedCredentials(b, AdminConfig(), DefaultSection, AdminDoc, utf8);
    AdminSecretHeader(b);
    AdminDecision(Some("Basic YWRtaW46c2VjcmV0"), utf8);
  }

  lemma AdminWrongBytes(s: string, b: seq<Base64.byte>)
    requires s == "admin:wrong" && b == [97, 100, 109, 105, 110, 58, 119, 114, 111, 110, 103]
    ensures IsAscii(s) && AsciiBytes(s) == b
    ensures s != "admin" + [':'] + "secret"
  {
    assert |s| != |"admin" + [':'] + "secret"|;
  }

  lemma WrongEncoding(b: seq<Base64.byte>)
    requires b == [119, 114, 111, 110, 103]
    ensures Base64.Encode(b) == "d3Jvbmc="
  {
    assert Base64.EncodeTriple(119, 114, 111) == "d3Jv";
    assert Base64.Encode([110, 103]) == "bmc=";
    assert b[3..] == [110, 103];
    EncodeQuantum(b, "d3Jv", "bmc=");
  }

  lemma AdminWrongEncoding(b: seq<Base64.byte>)
    requires b == [97, 100, 109, 105, 110, 58, 119, 114, 111, 110, 103]
    ensures Base64.Encode(b) == "YWRtaW46d3Jvbmc="
  {
    AdminColonEncoding(b[..6]);
    WrongEncoding(b[6..]);
    EncodeSplit(b, 6, "YWRtaW46", "d3Jvbmc=");
  }

  lemma AdminWrongHeader(b: seq<Base64.byte>)
    requires b == [97, 100, 109, 105, 110, 58, 119, 114, 111, 110, 103]
    ensures ("Basic YWRtaW46d3Jvbmc=")[|BasicPrefix|..] == Base64.Encode(b)
  {
    AdminWrongEncoding(b);
  }

  /** `Basic YWRtaW46d3Jvbmc=`, the encoding of `admin:wrong`, is refused
      with the challenge for `v1-admin`. */
  lemma WrongPasswordRejected(utf8: Utf8Decoder)
    requires DecodesAscii(utf8)
    ensures Invoke(Request(Some(AdminPath), Some("Basic YWRtaW46d3Jvbmc=")), AdminConfig(), Defaults(), utf8)
         == AdminRejection()
  {
    var header := "Basic YWRtaW46d3Jvbmc=";
    var b: seq<Base64.byte> := [97, 100, 109, 105, 110, 58, 119, 114, 111, 110, 103];
    AdminWrongBytes("admin:wrong", b);
    AdminWrongHeader(b);
    Base64.DecodeEncode(b);
    AuthorizedIff(Some(header), AdminConfig(), DefaultSection, AdminDoc, utf8);
    AdminDecision(Some(header), utf8);
  }

  /** No header at all is refused. */
  lemma MissingHeaderRejected(utf8: Utf8Decoder)
    ensures Invoke(Request(Some(AdminPath), None), AdminConfig(), Defaults(), utf8) == AdminRejection()
  {
    AdminDecision(None, utf8);
  }

  /** A header in another scheme is refused. */
  lemma BearerRejected(utf8: Utf8Decoder)
    ensures Invoke(Request(Some(AdminPath), Some("Bearer xyz")), AdminConfig(), Defaults(), utf8)
         == AdminRejection()
  {
    assert !(BasicPrefix <= "Bearer xyz") by { assert "Bearer xyz"[1] != BasicPrefix[1]; }
    AdminDecision(Some("Bearer xyz"), utf8);
  }

  /** The scheme is matched case-sensitively: `basic` with the right
      credentials is refused. */
  lemma LowerCaseSchemeRejected(utf8: Utf8Decoder)
    ensures Invoke(Request(Some(AdminPath), Some("basic YWRtaW46c2VjcmV0")), AdminConfig(), Defaults(), utf8)
         == AdminRejection()
  {
    assert !(BasicPrefix <= "basic YWRtaW46c2VjcmV0") by { assert "basic YWRtaW46c2VjcmV0"[0] != BasicPrefix[0]; }
    AdminDecision(Some("basic YWRtaW46c2VjcmV0"), utf8);
  }

  /** A `Basic` header whose text is not base64 is refused, not an error. */
  lemma MalformedBase64Rejected(utf8: Utf8Decoder)
    ensures Invoke(Request(Some(AdminPath), Some("Basic not-valid-base64!!")), AdminConfig(), Defaults(), utf8)
         == AdminRejection()
  {
    assert "Basic not-valid-base64!!"[|BasicPrefix|..] == "not-valid-base64!!";
    NotBase64Refused();
    AdminDecision(Some("Basic not-valid-base64!!"), utf8);
  }

  /** A document with no configured credentials is served to anyone. */
  lemma UnconfiguredDocumentForwarded(header: Option<string>, utf8: Utf8Decoder)
    ensures Invoke(Request(Some("/swagger/v1/swagger.json"), header), AdminConfig(), Defaults(), utf8) == Forward
  {
    assert "/swagger/v1/swagger.json" == SwaggerSegment + "v1" + SwaggerJson + "";
    LowerOfLowerCase("v1");
    DocumentRequestDecision("v1", "", header, AdminConfig(), Defaults(), utf8);
    KeysDistinct(DefaultSection, "v1", AdminDoc);
  }

  /** The path is matched in lower case, so an upper-case path reaches the
      same document and the same challenge. */
  lemma UpperCasePathRejected(utf8: Utf8Decoder)
    ensures Invoke(Request(Some("/SWAGGER/V1-ADMIN/swagger.json"), None), AdminConfig(), Defaults(), utf8)
         == AdminRejection()
  {
    assert Lower("/SWAGGER/V1-ADMIN/swagger.json") == AdminPath;
    PathCaseIgnored(Request(Some("/SWAGGER/V1-ADMIN/swagger.json"), None), AdminConfig(), Defaults(), utf8);
    MissingHeaderRejected(utf8);
  }

  /** The example name of the source's own comment. */
  lemma PinsoftExample()
    ensures ExtractDocName("/swagger/v1-pinsoft-admin/swagger.json") == Some("v1-pinsoft-admin")
  {
    assert "/swagger/v1-pinsoft-admin/swagger.json" == SwaggerSegment + "v1-pinsoft-admin" + SwaggerJson + "";
    assert "v1-pinsoft-admin"[0] != "swagger.json"[0];
    ExtractRoundTrip("v1-pinsoft-admin", "");
  }

  /** The test is `Contains`, so the path may go on after `/swagger.json`. */
  lemma TrailingSegmentExample()
    ensures ExtractDocName("/swagger/v1/swagger.json/x") == Some("v1")
  {
    assert "/swagger/v1/swagger.json/x" == SwaggerSegment + "v1" + SwaggerJson + "/x";
    ExtractRoundTrip("v1", "/x");
  }
}
