/** The options record `SwaggerAuthOptions`: the configuration section under
    which per-document credentials live, a require-for-all flag and an
    optional custom error message. */
module AuthOptions {
  import opened Wrappers

  datatype Options = Options(
    configurationSection: string,
    requireAuthForAllDocuments: bool,
    customErrorMessage: Option<string>)

  /** The section used when none is configured. */
  const DefaultSection: string := "Swagger:Auth"

  /** A freshly constructed options record. */
  function Defaults(): (o: Options)
    ensures o.configurationSection == "Swagger:Auth"
    ensures !o.requireAuthForAllDocuments
    ensures o.customErrorMessage == None
  {
    Options(DefaultSection, false, None)
  }

  /** The configuration key holding a document's user name:
      `{section}:{doc}:Username`. */
  function UsernameKey(section: string, doc: string): (k: string)
    ensures |k| == |section| + |doc| + 10
    ensures k[..|section|] == section && k[|section|] == ':'
    ensures k[|section| + 1..|section| + 1 + |doc|] == doc
    ensures k[|section| + 1 + |doc|..] == ":Username"
  {
    section + ":" + doc + ":Username"
  }

  /** The configuration key holding a document's password:
      `{section}:{doc}:Password`. */
  function PasswordKey(section: string, doc: string): (k: string)
    ensures |k| == |section| + |doc| + 10
    ensures k[..|section|] == section && k[|section|] == ':'
    ensures k[|section| + 1..|section| + 1 + |doc|] == doc
    ensures k[|section| + 1 + |doc|..] == ":Password"
  {
    section + ":" + doc + ":Password"
  }

  /** Within one section, different documents read different keys, and a
      document's user-name key is never its password key, so no configured
      value can be mistaken for another document's or the other field. */
  lemma {:induction false} KeysDistinct(section: string, d1: string, d2: string)
    ensures UsernameKey(section, d1) == UsernameKey(section, d2) <==> d1 == d2
    ensures PasswordKey(section, d1) == PasswordKey(section, d2) <==> d1 == d2
    ensures UsernameKey(section, d1) != PasswordKey(section, d2)
  {
    var u1, u2 := UsernameKey(section, d1), UsernameKey(section, d2);
    var p1, p2 := PasswordKey(section, d1), PasswordKey(section, d2);
    if u1 == u2 {
      assert |d1| == |d2|;
      assert d1 == u1[|section| + 1..|section| + 1 + |d1|];
      assert d2 == u2[|section| + 1..|section| + 1 + |d2|];
    }
    if p1 == p2 {
      assert |d1| == |d2|;
      assert d1 == p1[|section| + 1..|section| + 1 + |d1|];
      assert d2 == p2[|section| + 1..|section| + 1 + |d2|];
    }
    assert u1[|u1| - 8..] == "Username";
    assert p2[|p2| - 8..] == "Password";
    assert u1[|u1| - 8] != p2[|p2| - 8];
  }

  /** With the default section, the documented example document `v1-admin`
      reads its credentials from `Swagger:Auth:v1-admin:Username` and
      `Swagger:Auth:v1-admin:Password`. */
  lemma DefaultKeysForV1Admin()
    ensures UsernameKey(Defaults().configurationSection, "v1-admin") == "Swagger:Auth:v1-admin:Username"
    ensures PasswordKey(Defaults().configurationSection, "v1-admin") == "Swagger:Auth:v1-admin:Password"
  {
  }
}
