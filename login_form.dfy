/** The body `login()` posts: six `name=value` fields joined by `&`,
    concatenated without any URL encoding, and how a server reads such a
    body back, which percent-decodes each name and value. */
module LoginForm {
  import opened Js

  /** The login form body, concatenated without any encoding. (Grouped from
      the right; concatenation is associative, so the string is the same.) */
  function LoginParams(email: JsValue, pass: JsValue, server: JsValue): string {
    "email=" + ToStr(email)
      + ("&pass=" + ToStr(pass)
      + ("&navigator=Netscape"
      + ("&hostname=" + ToStr(server)
      + ("&javascript=false"
      + "&post_back=false"))))
  }

  /** The fields the login form carries, in order. */
  function LoginFields(email: JsValue, pass: JsValue, server: JsValue): seq<(string, string)> {
    [("email", ToStr(email)), ("pass", ToStr(pass)), ("navigator", "Netscape"),
     ("hostname", ToStr(server)), ("javascript", "false"), ("post_back", "false")]
  }

  /** `name=value` pairs joined by `&`, with no encoding. */
  function FormEncode(fields: seq<(string, string)>): string
    decreases |fields|
  {
    if fields == [] then ""
    else if |fields| == 1 then fields[0].0 + "=" + fields[0].1
    else fields[0].0 + "=" + fields[0].1 + "&" + FormEncode(fields[1..])
  }

  function IndexOf(s: string, c: char): (r: nat)
    requires c in s
    ensures r < |s| && s[r] == c && c !in s[..r]
  {
    if s[0] == c then 0 else assert s == [s[0]] + s[1..]; 1 + IndexOf(s[1..], c)
  }

  /** A form body cut at each `&`. */
  function SplitFields(s: string): (r: seq<string>)
    ensures |r| >= 1
    decreases |s|
  {
    if '&' !in s then [s]
    else var i := IndexOf(s, '&'); [s[..i]] + SplitFields(s[i + 1 ..])
  }

  /** A field cut at its first `=`; a field without one has an empty value. */
  function ParseField(f: string): (string, string) {
    if '=' in f then var i := IndexOf(f, '='); (f[..i], f[i + 1 ..]) else (f, "")
  }

  function ParseFields(fs: seq<string>): (r: seq<(string, string)>)
    ensures |r| == |fs|
    ensures forall i | 0 <= i < |fs| :: r[i] == ParseField(fs[i])
  {
    if fs == [] then [] else [ParseField(fs[0])] + ParseFields(fs[1..])
  }

  function HexValue(c: char): (r: int)
    ensures -1 <= r < 16
  {
    if '0' <= c <= '9' then c as int - '0' as int
    else if 'a' <= c <= 'f' then c as int - 'a' as int + 10
    else if 'A' <= c <= 'F' then c as int - 'A' as int + 10
    else -1
  }

  predicate EscapeAt(s: string, i: nat)
    requires i < |s|
  {
    s[i] == '%' && i + 2 < |s| && HexValue(s[i + 1]) >= 0 && HexValue(s[i + 2]) >= 0
  }

  /** A `+`, or a `%` followed by two hex digits, at position i. */
  predicate ChangedAt(s: string, i: nat)
    requires i < |s|
  {
    s[i] == '+' || EscapeAt(s, i)
  }

  /** Text a form parser would change. */
  predicate Escapes(s: string) {
    exists i: nat | i < |s| :: ChangedAt(s, i)
  }

  /** Percent-decoding as a form parser applies it to each name and value:
      `+` reads as a space, `%` and two hex digits as the character with
      that code, and any other `%` as itself. */
  function Unescape(s: string): (r: string)
    ensures |r| <= |s|
    decreases |s|
  {
    if s == [] then []
    else if s[0] == '+' then [' '] + Unescape(s[1..])
    else if EscapeAt(s, 0) then [(HexValue(s[1]) * 16 + HexValue(s[2])) as char] + Unescape(s[3..])
    else [s[0]] + Unescape(s[1..])
  }

  function UnescapeFields(fields: seq<(string, string)>): (r: seq<(string, string)>)
    ensures |r| == |fields|
    ensures forall i | 0 <= i < |fields| :: r[i] == (Unescape(fields[i].0), Unescape(fields[i].1))
  {
    if fields == [] then []
    else [(Unescape(fields[0].0), Unescape(fields[0].1))] + UnescapeFields(fields[1..])
  }

  /** How a server reads an `application/x-www-form-urlencoded` body: cut at
      each `&`, each field cut at its first `=`, then both halves
      percent-decoded. */
  function FormDecode(s: string): seq<(string, string)> {
    UnescapeFields(ParseFields(SplitFields(s)))
  }

  /** A form parser leaves a text unchanged exactly when it holds no `+`
      and no `%` followed by two hex digits. */
  lemma {:induction false} UnescapeFixedIff(s: string)
    ensures Unescape(s) == s <==> !Escapes(s)
    decreases |s|
  {
    if s != [] {
      var t := s[1..];
      assert forall i: nat | i < |t| :: t[i] == s[i + 1] && (ChangedAt(t, i) <==> ChangedAt(s, i + 1));
      assert Escapes(t) ==> Escapes(s) by {
        if Escapes(t) {
          var i: nat :| i < |t| && ChangedAt(t, i);
          assert ChangedAt(s, i + 1);
        }
      }
      if s[0] == '+' {
        assert Unescape(s)[0] == ' ';
        assert ChangedAt(s, 0);
      } else if EscapeAt(s, 0) {
        assert |Unescape(s)| <= 1 + |s[3..]| < |s|;
        assert ChangedAt(s, 0);
      } else {
        UnescapeFixedIff(t);
        assert Unescape(s) == [s[0]] + Unescape(t);
        assert Unescape(s) == s <==> Unescape(t) == t;
        assert Escapes(s) ==> Escapes(t) by {
          if Escapes(s) {
            var i: nat :| i < |s| && ChangedAt(s, i);
            assert i > 0;
            assert ChangedAt(t, i - 1);
          }
        }
      }
    }
  }

  /** Fields that survive the unencoded form: no `&` anywhere, no `=` in a name. */
  predicate PlainFields(fields: seq<(string, string)>) {
    forall i | 0 <= i < |fields| :: '&' !in fields[i].0 && '&' !in fields[i].1 && '=' !in fields[i].0
  }

  lemma SplitFirstField(a: string, b: string)
    requires '&' !in a
    ensures SplitFields(a + "&" + b) == [a] + SplitFields(b)
  {
    var s := a + "&" + b;
    assert s[|a|] == '&';
    assert forall j | 0 <= j < |a| :: s[j] == a[j];
    assert IndexOf(s, '&') == |a|;
    assert s[..|a|] == a;
    assert s[|a| + 1 ..] == b;
  }

  lemma ParsePair(name: string, value: string)
    requires '=' !in name
    ensures ParseField(name + "=" + value) == (name, value)
  {
    var f := name + "=" + value;
    assert f[|name|] == '=';
    assert forall j | 0 <= j < |name| :: f[j] == name[j];
    assert IndexOf(f, '=') == |name|;
    assert f[..|name|] == name;
    assert f[|name| + 1 ..] == value;
  }

  /** Decoding an unencoded form gives back its fields percent-decoded,
      provided no name or value holds `&` and no name holds `=`. */
  lemma FormRoundTrip(fields: seq<(string, string)>)
    requires |fields| >= 1 && PlainFields(fields)
    ensures FormDecode(FormEncode(fields)) == UnescapeFields(fields)
  {
    SplitRoundTrip(fields);
  }

  /** Cutting an unencoded form at `&` and `=` gives back its fields. */
  lemma {:induction false} SplitRoundTrip(fields: seq<(string, string)>)
    requires |fields| >= 1 && PlainFields(fields)
    ensures ParseFields(SplitFields(FormEncode(fields))) == fields
    decreases |fields|
  {
    var f := fields[0];
    var pair := f.0 + "=" + f.1;
    assert '&' !in pair by {
      assert forall j | 0 <= j < |pair| :: pair[j] == (if j < |f.0| then f.0[j] else if j == |f.0| then '=' else f.1[j - |f.0| - 1]);
    }
    ParsePair(f.0, f.1);
    if |fields| == 1 {
      assert FormEncode(fields) == pair;
    } else {
      var rest := fields[1..];
      assert PlainFields(rest) by {
        assert forall i | 0 <= i < |rest| :: rest[i] == fields[i + 1];
      }
      SplitRoundTrip(rest);
      SplitFirstField(pair, FormEncode(rest));
      assert FormEncode(fields) == pair + "&" + FormEncode(rest);
      assert ParseFields(SplitFields(FormEncode(fields)))
          == [ParseField(pair)] + ParseFields(SplitFields(FormEncode(rest)));
    }
  }

  lemma EncodeStep(fields: seq<(string, string)>)
    requires |fields| >= 2
    ensures FormEncode(fields) == fields[0].0 + "=" + fields[0].1 + ("&" + FormEncode(fields[1..]))
  {
  }

  lemma GlueField(lit: string, name: string, value: string, rest: string)
    requires lit == "&" + name + "="
    ensures lit + value + rest == "&" + (name + "=" + value + rest)
  {
  }

  /** The text from the k-th field on, with its leading `&`: that field,
      then the text from field k + 1 on. */
  lemma RemainderStep(fs: seq<(string, string)>, k: nat, lit: string)
    requires k + 1 < |fs| && lit == "&" + fs[k].0 + "="
    ensures "&" + FormEncode(fs[k..]) == lit + fs[k].1 + ("&" + FormEncode(fs[k + 1..]))
  {
    EncodeStep(fs[k..]);
    assert fs[k..][1..] == fs[k + 1..];
    GlueField(lit, fs[k].0, fs[k].1, "&" + FormEncode(fs[k + 1..]));
  }

  /** The login body is the unencoded form of LoginFields. */
  lemma LoginParamsForm(email: JsValue, pass: JsValue, server: JsValue)
    ensures LoginParams(email, pass, server) == FormEncode(LoginFields(email, pass, server))
  {
    var fs := LoginFields(email, pass, server);
    LoginRemainder1(email, pass, server);
    EncodeStep(fs);
    assert "email" + "=" + ToStr(email) == "email=" + ToStr(email);
  }

  // The text after each field of the login body, from the last field back.

  lemma LoginRemainder4(email: JsValue, pass: JsValue, server: JsValue)
    ensures "&" + FormEncode(LoginFields(email, pass, server)[4..]) == "&javascript=false" + "&post_back=false"
  {
    var fs := LoginFields(email, pass, server);
    assert fs[5..] == [("post_back", "false")];
    RemainderStep(fs, 4, "&javascript=");
    assert "&javascript=" + "false" == "&javascript=false";
  }

  lemma LoginRemainder3(email: JsValue, pass: JsValue, server: JsValue)
    ensures "&" + FormEncode(LoginFields(email, pass, server)[3..])
         == "&hostname=" + ToStr(server) + ("&javascript=false" + "&post_back=false")
  {
    LoginRemainder4(email, pass, server);
    RemainderStep(LoginFields(email, pass, server), 3, "&hostname=");
  }

  lemma LoginRemainder2(email: JsValue, pass: JsValue, server: JsValue)
    ensures "&" + FormEncode(LoginFields(email, pass, server)[2..])
         == "&navigator=Netscape" + ("&hostname=" + ToStr(server) + ("&javascript=false" + "&post_back=false"))
  {
    LoginRemainder3(email, pass, server);
    RemainderStep(LoginFields(email, pass, server), 2, "&navigator=");
    assert "&navigator=" + "Netscape" == "&navigator=Netscape";
  }

  lemma LoginRemainder1(email: JsValue, pass: JsValue, server: JsValue)
    ensures "&" + FormEncode(LoginFields(email, pass, server)[1..])
         == "&pass=" + ToStr(pass)
            + ("&navigator=Netscape" + ("&hostname=" + ToStr(server) + ("&javascript=false" + "&post_back=false")))
  {
    LoginRemainder2(email, pass, server);
    RemainderStep(LoginFields(email, pass, server), 1, "&pass=");
  }

  /** A server reading the login body, when no credential holds `&`, finds
      the six fields with each credential percent-decoded: it finds the
      email, the password and the host name as given exactly when none of
      them holds `+` or `%` and two hex digits. */
  lemma LoginParamsRoundTrip(email: JsValue, pass: JsValue, server: JsValue)
    requires '&' !in ToStr(email) && '&' !in ToStr(pass) && '&' !in ToStr(server)
    ensures FormDecode(LoginParams(email, pass, server)) == UnescapeFields(LoginFields(email, pass, server))
    ensures FormDecode(LoginParams(email, pass, server)) == LoginFields(email, pass, server)
        <==> !Escapes(ToStr(email)) && !Escapes(ToStr(pass)) && !Escapes(ToStr(server))
  {
    LoginParamsForm(email, pass, server);
    LoginFieldsPlain(email, pass, server);
    FormRoundTrip(LoginFields(email, pass, server));
    LoginFieldsFixedIff(email, pass, server);
  }

  /** An email address with a `+` tag reaches the server with a space in
      its place. */
  lemma PlusInEmailReadsAsSpace(pass: JsValue, server: JsValue)
    requires '&' !in ToStr(pass) && '&' !in ToStr(server)
    ensures FormDecode(LoginParams(Str("a+b"), pass, server))[0] == ("email", "a b")
  {
    LoginParamsRoundTrip(Str("a+b"), pass, server);
    CredentialNamesFixed();
    PlusReadsAsSpace();
  }

  lemma PlusReadsAsSpace()
    ensures Unescape("a+b") == "a b"
  {
    assert Unescape("b") == "b";
    assert "+b"[1..] == "b";
    assert Unescape("+b") == " b";
    assert "a+b"[1..] == "+b";
  }

  /** The login fields read back as written exactly when no credential
      escapes. */
  lemma LoginFieldsFixedIff(email: JsValue, pass: JsValue, server: JsValue)
    ensures UnescapeFields(LoginFields(email, pass, server)) == LoginFields(email, pass, server)
        <==> !Escapes(ToStr(email)) && !Escapes(ToStr(pass)) && !Escapes(ToStr(server))
  {
    var fs := LoginFields(email, pass, server);
    LoginLiteralsFixed(email, pass, server);
    CredentialsDecide(fs);
    UnescapeFixedIff(ToStr(email));
    UnescapeFixedIff(ToStr(pass));
    UnescapeFixedIff(ToStr(server));
  }

  /** Six fields whose other parts read back as written read back whole
      exactly when the values of fields 0, 1 and 3 do. */
  lemma CredentialsDecide(fs: seq<(string, string)>)
    requires |fs| == 6
    requires var us := UnescapeFields(fs);
      us[0].0 == fs[0].0 && us[1].0 == fs[1].0 && us[3].0 == fs[3].0
      && us[2] == fs[2] && us[4] == fs[4] && us[5] == fs[5]
    ensures UnescapeFields(fs) == fs
        <==> Unescape(fs[0].1) == fs[0].1 && Unescape(fs[1].1) == fs[1].1 && Unescape(fs[3].1) == fs[3].1
  {
    var us := UnescapeFields(fs);
    assert us[0].1 == Unescape(fs[0].1) && us[1].1 == Unescape(fs[1].1) && us[3].1 == Unescape(fs[3].1);
    if us[0].1 == fs[0].1 && us[1].1 == fs[1].1 && us[3].1 == fs[3].1 {
      assert us[0] == fs[0] && us[1] == fs[1] && us[3] == fs[3];
      assert us == fs by {
        assert |us| == |fs|;
        assert forall i | 0 <= i < |us| :: us[i] == fs[i] by {
          forall i | 0 <= i < |us| ensures us[i] == fs[i] {
            assert i == 0 || i == 1 || i == 2 || i == 3 || i == 4 || i == 5;
          }
        }
      }
    }
  }

  /** Text without `+` and `%` reads back as written. */
  lemma PlainText(s: string)
    requires '+' !in s && '%' !in s
    ensures Unescape(s) == s
  {
    UnescapeFixedIff(s);
  }

  /** Every part of the login fields but the three credentials reads back as
      written. */
  lemma LoginLiteralsFixed(email: JsValue, pass: JsValue, server: JsValue)
    ensures var fs := LoginFields(email, pass, server); var us := UnescapeFields(fs);
      us[0].0 == fs[0].0 && us[1].0 == fs[1].0 && us[3].0 == fs[3].0
      && us[2] == fs[2] && us[4] == fs[4] && us[5] == fs[5]
  {
    CredentialNamesFixed();
    NavigatorFixed();
    FlagsFixed();
  }

  // The field names and fixed values of the login form read back as written.

  lemma CredentialNamesFixed()
    ensures Unescape("email") == "email" && Unescape("pass") == "pass" && Unescape("hostname") == "hostname"
  {
    PlainText("email");
    PlainText("pass");
    PlainText("hostname");
  }

  lemma NavigatorFixed()
    ensures Unescape("navigator") == "navigator" && Unescape("Netscape") == "Netscape"
  {
    PlainText("navigator");
    PlainText("Netscape");
  }

  lemma FlagsFixed()
    ensures Unescape("javascript") == "javascript" && Unescape("post_back") == "post_back"
    ensures Unescape("false") == "false"
  {
    PlainText("javascript");
    PlainText("post_back");
    PlainText("false");
  }

  lemma LoginFieldsPlain(email: JsValue, pass: JsValue, server: JsValue)
    requires '&' !in ToStr(email) && '&' !in ToStr(pass) && '&' !in ToStr(server)
    ensures PlainFields(LoginFields(email, pass, server))
  {
    var fs := LoginFields(email, pass, server);
    forall i | 0 <= i < |fs| ensures '&' !in fs[i].0 && '&' !in fs[i].1 && '=' !in fs[i].0 {
      if i == 0 { assert fs[i].0 == "email"; }
      else if i == 1 { assert fs[i].0 == "pass"; }
      else if i == 2 { assert fs[i] == ("navigator", "Netscape"); }
      else if i == 3 { assert fs[i].0 == "hostname"; }
      else if i == 4 { assert fs[i] == ("javascript", "false"); }
      else { assert fs[i] == ("post_back", "false"); }
    }
  }
}
