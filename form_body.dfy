/**
 * The `application/x-www-form-urlencoded` POST bodies the uploader writes:
 * the two fixed-field bodies (statement upload and user creation) and the body
 * of caller-supplied key/value pairs, built by a loop that appends `key=value&`
 * and then cuts the last character.  `ParseForm` splits a body into its
 * fields on `&` and `=` without decoding names or values; it is the partner
 * that states which fields the bodies carry.
 */
module FormBody {
  import opened Wrappers
  import opened DataSources
  import PercentEncoding

  type Pair = (string, string)

  /** One field, `key=value`, both verbatim. */
  function Render(p: Pair): string {
    p.0 + "=" + p.1
  }

  /** The fields rendered and separated by `&`, with no separator at either end. */
  function Joined(ps: seq<Pair>): string
    decreases |ps|
  {
    if ps == [] then ""
    else if |ps| == 1 then Render(ps[0])
    else Render(ps[0]) + "&" + Joined(ps[1..])
  }

  /** What the key/value loop has accumulated after the fields `ps`: each one followed by `&`. */
  function Terminated(ps: seq<Pair>): string
    decreases |ps|
  {
    if ps == [] then "" else Terminated(ps[..|ps| - 1]) + Render(ps[|ps| - 1]) + "&"
  }

  lemma {:induction false} JoinedSnoc(ps: seq<Pair>, p: Pair)
    requires |ps| > 0
    ensures Joined(ps + [p]) == Joined(ps) + "&" + Render(p)
    decreases |ps|
  {
    if |ps| > 1 {
      assert (ps + [p])[1..] == ps[1..] + [p];
      JoinedSnoc(ps[1..], p);
    } else {
      assert (ps + [p])[1..] == [p];
    }
  }

  /** Cutting the last character of the loop's string leaves exactly the `&`-joined fields. */
  lemma {:induction false} TerminatedJoined(ps: seq<Pair>)
    requires |ps| > 0
    ensures Terminated(ps) == Joined(ps) + "&"
    decreases |ps|
  {
    var init, last := ps[..|ps| - 1], ps[|ps| - 1];
    assert Terminated(ps) == Terminated(init) + Render(last) + "&";
    if |init| > 0 {
      TerminatedJoined(init);
      assert ps == init + [last];
      JoinedSnoc(init, last);
      calc {
        Terminated(ps);
        Terminated(init) + Render(last) + "&";
        Joined(init) + "&" + Render(last) + "&";
        Joined(init + [last]) + "&";
      }
    } else {
      assert Terminated(init) == "";
      assert Joined(ps) == Render(last);
    }
  }

  // ---------------------------------------------------------------------------
  // Splitting a body: on `&`, then each field at its first `=`; names and values are not decoded.

  function SplitOn(s: string, d: char): (r: seq<string>)
    ensures |r| > 0
    decreases |s|
  {
    if s == [] then [""]
    else
      var rest := SplitOn(s[1..], d);
      if s[0] == d then [""] + rest else [[s[0]] + rest[0]] + rest[1..]
  }

  lemma {:induction false} SplitOnNoDelimiter(a: string, d: char)
    requires d !in a
    ensures SplitOn(a, d) == [a]
    decreases |a|
  {
    if a != [] {
      SplitOnNoDelimiter(a[1..], d);
      assert [a[0]] + a[1..] == a;
    }
  }

  lemma {:induction false} SplitOnFirst(a: string, d: char, b: string)
    requires d !in a
    ensures SplitOn(a + [d] + b, d) == [a] + SplitOn(b, d)
    decreases |a|
  {
    var s := a + [d] + b;
    if a == [] {
      assert s[0] == d && s[1..] == b;
    } else {
      assert s[0] == a[0] && s[1..] == a[1..] + [d] + b;
      SplitOnFirst(a[1..], d, b);
      assert [a[0]] + a[1..] == a;
    }
  }

  /** Splits one field at its first `=`; `None` when it has none. */
  function SplitField(piece: string): Option<Pair>
    decreases |piece|
  {
    if piece == [] then None
    else if piece[0] == '=' then Some(("", piece[1..]))
    else
      match SplitField(piece[1..])
      case None => None
      case Some(kv) => Some(([piece[0]] + kv.0, kv.1))
  }

  lemma {:induction false} SplitFieldRender(p: Pair)
    requires '=' !in p.0
    ensures SplitField(Render(p)) == Some(p)
    decreases |p.0|
  {
    var piece := Render(p);
    if p.0 == [] {
      assert piece[0] == '=' && piece[1..] == p.1;
    } else {
      assert piece[0] == p.0[0] && piece[1..] == Render((p.0[1..], p.1));
      SplitFieldRender((p.0[1..], p.1));
      assert [p.0[0]] + p.0[1..] == p.0;
    }
  }

  function ParseFields(pieces: seq<string>): Option<seq<Pair>>
    decreases |pieces|
  {
    if pieces == [] then Some([])
    else
      match SplitField(pieces[0])
      case None => None
      case Some(kv) =>
        match ParseFields(pieces[1..])
        case None => None
        case Some(rest) => Some([kv] + rest)
  }

  /** The fields of a body, split on `&` and `=`, names and values left as they are. */
  function ParseForm(body: string): Option<seq<Pair>> {
    ParseFields(SplitOn(body, '&'))
  }

  /** No key holds `&` or `=` and no value holds `&`: the rendering can be split back unambiguously. */
  predicate Unambiguous(ps: seq<Pair>) {
    forall i | 0 <= i < |ps| :: '&' !in ps[i].0 && '=' !in ps[i].0 && '&' !in ps[i].1
  }

  /** Joining fields and splitting the result gives the same fields back, in the same order. */
  lemma {:induction false} ParseJoined(ps: seq<Pair>)
    requires |ps| > 0 && Unambiguous(ps)
    ensures ParseForm(Joined(ps)) == Some(ps)
    decreases |ps|
  {
    var head := Render(ps[0]);
    assert '&' !in head by {
      assert head == ps[0].0 + "=" + ps[0].1;
    }
    SplitFieldRender(ps[0]);
    if |ps| == 1 {
      SplitOnNoDelimiter(head, '&');
      assert Joined(ps) == head;
      assert [head][1..] == [];
      assert ParseFields([head]) == Some([ps[0]] + []);
      assert [ps[0]] + [] == ps;
    } else {
      assert Unambiguous(ps[1..]) by {
        forall i | 0 <= i < |ps| - 1 ensures ps[1..][i] == ps[i + 1] { }
      }
      ParseJoined(ps[1..]);
      SplitOnFirst(head, '&', Joined(ps[1..]));
      assert Joined(ps) == head + ['&'] + Joined(ps[1..]);
      assert [ps[0]] + ps[1..] == ps;
    }
  }

  // ---------------------------------------------------------------------------
  // The three bodies.

  /** The `SQLQuery` value: the encoded statement, or empty when encoding failed (`?? ""`). */
  function SqlQueryValue(encoded: Option<string>): (query: string)
    ensures encoded.Some? ==> query == encoded.value
    ensures encoded.None? ==> query == ""
  {
    encoded.GetOr("")
  }

  lemma JoinedThree(a: Pair, b: Pair, c: Pair)
    ensures Joined([a, b, c]) == Render(a) + "&" + Render(b) + "&" + Render(c)
  {
    var ps := [a, b, c];
    assert ps[1..] == [b, c] && [b, c][1..] == [c];
    assert Joined([b, c]) == Render(b) + "&" + Render(c);
    assert Render(a) + "&" + (Render(b) + "&" + Render(c)) == Render(a) + "&" + Render(b) + "&" + Render(c);
  }

  lemma JoinedFour(a: Pair, b: Pair, c: Pair, d: Pair)
    ensures Joined([a, b, c, d]) == Render(a) + "&" + Render(b) + "&" + Render(c) + "&" + Render(d)
  {
    var ps := [a, b, c, d];
    assert ps[1..] == [b, c, d];
    JoinedThree(b, c, d);
    var tail := Render(b) + "&" + Render(c) + "&" + Render(d);
    assert Render(a) + "&" + tail == Render(a) + "&" + Render(b) + "&" + Render(c) + "&" + Render(d);
  }

  /** Three rendered fields, regrouped so that each separator sits with the next key. */
  lemma RegroupThree(a: Pair, b: Pair, c: Pair)
    ensures Render(a) + "&" + Render(b) + "&" + Render(c) ==
      (a.0 + "=") + a.1 + ("&" + b.0 + "=") + b.1 + ("&" + c.0 + "=") + c.1
  {
  }

  lemma RegroupFour(a: Pair, b: Pair, c: Pair, d: Pair)
    ensures Render(a) + "&" + Render(b) + "&" + Render(c) + "&" + Render(d) ==
      (a.0 + "=") + a.1 + ("&" + b.0 + "=") + b.1 + ("&" + c.0 + "=") + c.1 + ("&" + d.0 + "=") + d.1
  {
    RegroupThree(a, b, c);
  }

  /** Line 120's interpolation is the fields Password, Username, SQLQuery in that order, each value verbatim. */
  lemma StatementFieldsJoined(password: string, user: string, query: string)
    ensures "Password=" + password + "&Username=" + user + "&SQLQuery=" + query ==
      Joined([("Password", password), ("Username", user), ("SQLQuery", query)])
  {
    var a, b, c := ("Password", password), ("Username", user), ("SQLQuery", query);
    JoinedThree(a, b, c);
    RegroupThree(a, b, c);
    assert "Password=" == a.0 + "=" && "&Username=" == "&" + b.0 + "=" && "&SQLQuery=" == "&" + c.0 + "=";
  }

  /** Line 26's interpolation is the fields Password, Username, Email, SQLQuery in that order, each value verbatim. */
  lemma CreateUserFieldsJoined(password: string, user: string, email: string, query: string)
    ensures "Password=" + password + "&Username=" + user + "&Email=" + email + "&SQLQuery=" + query ==
      Joined([("Password", password), ("Username", user), ("Email", email), ("SQLQuery", query)])
  {
    var a, b, c, d := ("Password", password), ("Username", user), ("Email", email), ("SQLQuery", query);
    JoinedFour(a, b, c, d);
    RegroupFour(a, b, c, d);
    assert "Password=" == a.0 + "=" && "&Username=" == "&" + b.0 + "=" && "&Email=" == "&" + c.0 + "=";
    assert "&SQLQuery=" == "&" + d.0 + "=";
  }

  /**
   * The body of `upload(sqlStatement:)`: the database password, the website user
   * name and the query value, in that order, the credentials not encoded.
   */
  function StatementBody(ds: DataSource, encoded: Option<string>): (body: string)
    ensures body ==
      Joined([("Password", ds.databaseUserPass), ("Username", ds.websiteUserName), ("SQLQuery", SqlQueryValue(encoded))])
  {
    var query := SqlQueryValue(encoded);
    StatementFieldsJoined(ds.databaseUserPass, ds.websiteUserName, query);
    "Password=" + ds.databaseUserPass + "&Username=" + ds.websiteUserName + "&SQLQuery=" + query
  }

  /**
   * The body of `createNewUser(from:email:)`: as the statement body, with the
   * email inserted verbatim before the query.
   */
  function CreateUserBody(ds: DataSource, email: string, encoded: Option<string>): (body: string)
    ensures body ==
      Joined([("Password", ds.databaseUserPass), ("Username", ds.websiteUserName), ("Email", email),
              ("SQLQuery", SqlQueryValue(encoded))])
  {
    var query := SqlQueryValue(encoded);
    CreateUserFieldsJoined(ds.databaseUserPass, ds.websiteUserName, email, query);
    "Password=" + ds.databaseUserPass + "&Username=" + ds.websiteUserName + "&Email=" + email + "&SQLQuery=" + query
  }

  lemma EncodedHasNoAmpersand(stmt: string)
    ensures '&' !in PercentEncoding.Encode(stmt)
  {
    var e := PercentEncoding.Encode(stmt);
    assert PercentEncoding.InEncodedAlphabet(e);
  }

  /** The keys the uploader writes hold neither `&` nor `=`. */
  lemma FixedKeysPlain()
    ensures '&' !in "Password" && '=' !in "Password"
    ensures '&' !in "Username" && '=' !in "Username"
    ensures '&' !in "Email" && '=' !in "Email"
    ensures '&' !in "SQLQuery" && '=' !in "SQLQuery"
  {
  }

  lemma UnambiguousThree(a: Pair, b: Pair, c: Pair)
    requires '&' !in a.0 && '=' !in a.0 && '&' !in a.1
    requires '&' !in b.0 && '=' !in b.0 && '&' !in b.1
    requires '&' !in c.0 && '=' !in c.0 && '&' !in c.1
    ensures Unambiguous([a, b, c])
  {
  }

  lemma UnambiguousFour(a: Pair, b: Pair, c: Pair, d: Pair)
    requires '&' !in a.0 && '=' !in a.0 && '&' !in a.1
    requires '&' !in b.0 && '=' !in b.0 && '&' !in b.1
    requires '&' !in c.0 && '=' !in c.0 && '&' !in c.1
    requires '&' !in d.0 && '=' !in d.0 && '&' !in d.1
    ensures Unambiguous([a, b, c, d])
  {
  }

  /**
   * Splitting the statement body gives back the database password, the user name
   * and the encoded statement, unless a credential itself holds `&`.
   */
  lemma ParseStatementBody(ds: DataSource, stmt: string)
    requires '&' !in ds.databaseUserPass && '&' !in ds.websiteUserName
    ensures ParseForm(StatementBody(ds, PercentEncoding.AddingPercentEncoding(stmt))) ==
      Some([("Password", ds.databaseUserPass), ("Username", ds.websiteUserName), ("SQLQuery", PercentEncoding.Encode(stmt))])
  {
    var encoded := PercentEncoding.AddingPercentEncoding(stmt);
    var q := PercentEncoding.Encode(stmt);
    assert SqlQueryValue(encoded) == q;
    var ps := [("Password", ds.databaseUserPass), ("Username", ds.websiteUserName), ("SQLQuery", q)];
    EncodedHasNoAmpersand(stmt);
    FixedKeysPlain();
    UnambiguousThree(ps[0], ps[1], ps[2]);
    ParseJoined(ps);
  }

  /** The same for the create-user body: the email arrives verbatim, in third place. */
  lemma ParseCreateUserBody(ds: DataSource, email: string, stmt: string)
    requires '&' !in ds.databaseUserPass && '&' !in ds.websiteUserName && '&' !in email
    ensures ParseForm(CreateUserBody(ds, email, PercentEncoding.AddingPercentEncoding(stmt))) ==
      Some([("Password", ds.databaseUserPass), ("Username", ds.websiteUserName), ("Email", email),
            ("SQLQuery", PercentEncoding.Encode(stmt))])
  {
    var encoded := PercentEncoding.AddingPercentEncoding(stmt);
    var q := PercentEncoding.Encode(stmt);
    assert SqlQueryValue(encoded) == q;
    var ps := [("Password", ds.databaseUserPass), ("Username", ds.websiteUserName), ("Email", email), ("SQLQuery", q)];
    EncodedHasNoAmpersand(stmt);
    FixedKeysPlain();
    UnambiguousFour(ps[0], ps[1], ps[2], ps[3]);
    ParseJoined(ps);
  }

  /** When encoding yields nil the statement field is present but empty. */
  lemma ParseStatementBodyWithoutQuery(ds: DataSource)
    requires '&' !in ds.databaseUserPass && '&' !in ds.websiteUserName
    ensures ParseForm(StatementBody(ds, None)) ==
      Some([("Password", ds.databaseUserPass), ("Username", ds.websiteUserName), ("SQLQuery", "")])
  {
    var ps := [("Password", ds.databaseUserPass), ("Username", ds.websiteUserName), ("SQLQuery", "")];
    FixedKeysPlain();
    UnambiguousThree(ps[0], ps[1], ps[2]);
    ParseJoined(ps);
  }

  // ---------------------------------------------------------------------------
  // Key/value bodies.

  /** `order` is the dictionary's iteration order: each key exactly once. */
  predicate IsIterationOrder(order: seq<string>, m: map<string, string>) {
    && (forall i, j | 0 <= i < j < |order| :: order[i] != order[j])
    && (forall i | 0 <= i < |order| :: order[i] in m)
    && (forall k | k in m :: k in order)
  }

  /** An enumeration of the keys, each once, is as long as the dictionary. */
  lemma IterationOrderLength(order: seq<string>, m: map<string, string>)
    requires IsIterationOrder(order, m)
    ensures |order| == |m|
  {
    var keys := set i | 0 <= i < |order| :: order[i];
    assert keys == m.Keys;
    SetOfDistinct(order);
  }

  lemma {:induction false} SetOfDistinct(order: seq<string>)
    requires forall i, j | 0 <= i < j < |order| :: order[i] != order[j]
    ensures |set i | 0 <= i < |order| :: order[i]| == |order|
    decreases |order|
  {
    if order != [] {
      var init := order[..|order| - 1];
      var last := order[|order| - 1];
      SetOfDistinct(init);
      var a := set i | 0 <= i < |init| :: init[i];
      var b := set i | 0 <= i < |order| :: order[i];
      assert b == a + {last};
      assert last !in a;
    }
  }

  /**
   * The dictionary's entries as `for (key, value) in` visits them: every entry
   * appears, each key exactly once, each with its own value.
   */
  function PairsInOrder(m: map<string, string>, order: seq<string>): (ps: seq<Pair>)
    requires IsIterationOrder(order, m)
    ensures |ps| == |order| == |m|
    ensures forall i | 0 <= i < |order| :: ps[i] == (order[i], m[order[i]])
    ensures forall i | 0 <= i < |ps| :: ps[i].0 in m && ps[i].1 == m[ps[i].0]
    ensures forall k | k in m :: exists i | 0 <= i < |ps| :: ps[i] == (k, m[k])
    ensures forall i, j | 0 <= i < j < |ps| :: ps[i].0 != ps[j].0
  {
    var ps := seq(|order|, i requires 0 <= i < |order| => (order[i], m[order[i]]));
    forall k | k in m ensures exists i | 0 <= i < |ps| :: ps[i] == (k, m[k]) {
      var i :| 0 <= i < |order| && order[i] == k;
      assert ps[i] == (k, m[k]);
    }
    IterationOrderLength(order, m);
    ps
  }

  /**
   * The body of `upload(customPOSTQueries:)`: the loop appends `key=value&` per
   * entry, then the last character is cut off.  An empty dictionary traps at that cut.
   */
  method KeyValueBody(customPOSTQueries: map<string, string>, order: seq<string>) returns (postString: string)
    requires |customPOSTQueries| > 0
    requires IsIterationOrder(order, customPOSTQueries)
    ensures postString == Joined(PairsInOrder(customPOSTQueries, order))
  {
    ghost var ps := seq(|order|, i requires 0 <= i < |order| => (order[i], customPOSTQueries[order[i]]));
    var customParameters := "";
    for i := 0 to |order|
      invariant customParameters == Terminated(ps[..i])
    {
      var key := order[i];
      var value := customPOSTQueries[key];
      assert ps[..i + 1][..i] == ps[..i] && ps[i] == (key, value);
      customParameters := customParameters + key + "=" + value + "&";
    }
    assert ps[..|order|] == ps;
    assert |order| > 0 by {
      var k :| k in customPOSTQueries;
    }
    TerminatedJoined(ps);
    postString := customParameters[..|customParameters| - 1];
    assert ps == PairsInOrder(customPOSTQueries, order);
  }

  /** Every entry of the dictionary appears in the body as one field, and nothing else does. */
  lemma ParseKeyValueBody(m: map<string, string>, order: seq<string>)
    requires |m| > 0 && IsIterationOrder(order, m)
    requires forall k | k in m :: '&' !in k && '=' !in k && '&' !in m[k]
    ensures var ps := PairsInOrder(m, order);
      && ParseForm(Joined(ps)) == Some(ps)
      && (forall i | 0 <= i < |ps| :: ps[i].0 in m && ps[i].1 == m[ps[i].0])
      && (forall k | k in m :: exists i | 0 <= i < |ps| :: ps[i] == (k, m[k]))
  {
    var ps := PairsInOrder(m, order);
    assert |order| > 0 by {
      var k :| k in m;
    }
    ParseJoined(ps);
  }
}
