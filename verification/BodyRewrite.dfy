/**
 * The identity rewrite of a sub-message body: three byte-string substitutions applied one after
 * the other, each with the left-to-right, non-overlapping semantics of `bytes.replace`.
 */
module BodyRewrite {
  import opened Bytes
  import opened Search

  datatype Substitution = Substitution(find: bytes, put: bytes)

  const SYSID := Substitution(Ascii("\"sysid\":59760"), Ascii("\"sysid\":60018"))
  const SHORTNAME := Substitution(Ascii("\"shortname\":\"UCKP\""), Ascii("\"shortname\":\"UNAS2B\""))
  const NAME := Substitution(Ascii("\"name\":\"UniFi Cloudkey Plus\""), Ascii("\"name\":\"UNAS 2\""))

  const SUBSTITUTIONS: seq<Substitution> := [SYSID, SHORTNAME, NAME]

  function Replace(s: bytes, sub: Substitution): bytes
    requires sub.find != []
  {
    if |s| < |sub.find| then s
    else if s[..|sub.find|] == sub.find then sub.put + Replace(s[|sub.find|..], sub)
    else [s[0]] + Replace(s[1..], sub)
  }

  function Rewrite(body: bytes): bytes
  {
    Replace(Replace(Replace(body, SYSID), SHORTNAME), NAME)
  }

  method RewriteBody(body: bytes) returns (r: bytes)
    ensures r == Rewrite(body)
  {
    r := body;
    ghost var stages := [body, Replace(body, SYSID), Replace(Replace(body, SYSID), SHORTNAME), Rewrite(body)];
    for i := 0 to |SUBSTITUTIONS|
      invariant r == stages[i]
    {
      r := Replace(r, SUBSTITUTIONS[i]);
    }
  }

  // ---------------------------------------------------------------- split and join

  function Join(pieces: seq<bytes>, sep: bytes): bytes
  {
    if pieces == [] then [] else if |pieces| == 1 then pieces[0] else pieces[0] + sep + Join(pieces[1..], sep)
  }

  /** The text between consecutive matches of pat, as `split` cuts it. */
  ghost predicate SplitsInto(s: bytes, pat: bytes, pieces: seq<bytes>)
  {
    && pieces != []
    && s == Join(pieces, pat)
    && (forall i :: 0 <= i < |pieces| - 1 ==> FirstAt(pat, pieces[i] + pat, |pieces[i]|))
    && !Occurs(pat, pieces[|pieces| - 1])
  }

  lemma OccursCons(w: bytes, s: bytes)
    requires w != [] && s != []
    ensures Occurs(w, s) <==> w <= s || Occurs(w, s[1..])
  {
    if w <= s {
      assert At(w, s, 0);
    }
    forall i | At(w, s[1..], i) ensures At(w, s, i + 1) {
      assert s[i + 1..i + 1 + |w|] == s[1..][i..i + |w|];
    }
    forall i | At(w, s, i) && i > 0 ensures At(w, s[1..], i - 1) {
      assert s[i..i + |w|] == s[1..][i - 1..i - 1 + |w|];
    }
  }

  function Prepend(c: byte, pieces: seq<bytes>): seq<bytes>
    requires pieces != []
  {
    [[c] + pieces[0]] + pieces[1..]
  }

  lemma JoinPrepend(c: byte, pieces: seq<bytes>, sep: bytes)
    requires pieces != []
    ensures Join(Prepend(c, pieces), sep) == [c] + Join(pieces, sep)
  {
  }

  lemma SplitPrepend(c: byte, s: bytes, pat: bytes, pieces: seq<bytes>)
    requires pat != [] && SplitsInto(s, pat, pieces) && !(pat <= [c] + s)
    ensures SplitsInto([c] + s, pat, Prepend(c, pieces))
  {
    JoinPrepend(c, pieces, pat);
    OccursCons(pat, [c] + s);
    assert ([c] + s)[1..] == s;
    if |pieces| == 1 {
      assert Prepend(c, pieces) == [[c] + s];
    } else {
      assert forall i :: 1 <= i < |pieces| ==> Prepend(c, pieces)[i] == pieces[i];
      ShiftFirst(pat, c, pieces[0], Join(pieces[1..], pat), [c] + s);
    }
  }

  lemma SplitMatch(f: bytes, tail: bytes, pieces: seq<bytes>)
    requires f != [] && SplitsInto(tail, f, pieces)
    ensures SplitsInto(f + tail, f, [[]] + pieces)
  {
    var all := [[]] + pieces;
    assert all[1..] == pieces;
    assert [] + f == f && At(f, f, 0);
    assert forall i :: 1 <= i < |all| ==> all[i] == pieces[i - 1];
  }

  lemma JoinMatch(put: bytes, pieces: seq<bytes>)
    requires pieces != []
    ensures Join([[]] + pieces, put) == put + Join(pieces, put)
  {
    var all := [[]] + pieces;
    assert all[1..] == pieces;
    assert [] + put == put;
  }

  /** Replacing is cutting the text at the leftmost disjoint matches and joining it with the new string. */
  lemma {:induction false} ReplaceIsSplitJoin(s: bytes, sub: Substitution) returns (pieces: seq<bytes>)
    requires sub.find != []
    ensures SplitsInto(s, sub.find, pieces)
    ensures Replace(s, sub) == Join(pieces, sub.put)
    decreases |s|
  {
    var f := sub.find;
    if |s| < |f| {
      pieces := [s];
    } else if s[..|f|] == f {
      hide SplitsInto, Join;
      var rest := ReplaceIsSplitJoin(s[|f|..], sub);
      HasPieces(s[|f|..], f, rest);
      pieces := [[]] + rest;
      assert s == f + s[|f|..];
      SplitMatch(f, s[|f|..], rest);
      JoinMatch(sub.put, rest);
    } else {
      hide SplitsInto, Join;
      var rest := ReplaceIsSplitJoin(s[1..], sub);
      HasPieces(s[1..], f, rest);
      pieces := Prepend(s[0], rest);
      assert s == [s[0]] + s[1..];
      SplitPrepend(s[0], s[1..], f, rest);
      JoinPrepend(s[0], rest, sub.put);
    }
  }

  lemma HasPieces(s: bytes, pat: bytes, pieces: seq<bytes>)
    requires SplitsInto(s, pat, pieces)
    ensures pieces != []
  {
  }

  lemma ShiftFirst(f: bytes, c: byte, p: bytes, tail: bytes, s: bytes)
    requires f != [] && FirstAt(f, p + f, |p|)
    requires s == [c] + (p + f + tail) && !(f <= s)
    ensures FirstAt(f, [c] + p + f, |[c] + p|)
  {
    var t := [c] + p + f;
    assert t[1..] == p + f;
    assert s[..|t|] == t;
    assert !At(f, t, 0);
    forall j | 0 < j <= |p| + 1 ensures At(f, t, j) <==> At(f, p + f, j - 1) {
      assert t[j..j + |f|] == (p + f)[j - 1..j - 1 + |f|];
    }
  }

  // ---------------------------------------------------------------- shape of the six strings

  const QUOTE: byte := 34

  /** The letters a key can begin with: every key of the table starts with s or n. */
  predicate KeyLetter(b: byte) { b == 115 || b == 110 }

  /** A string that opens with a quoted key and contains no other place where a key could begin. */
  predicate Keyed(x: bytes)
  {
    && |x| >= 3
    && x[0] == QUOTE && KeyLetter(x[1])
    && forall i :: 1 <= i < |x| - 1 && x[i] == QUOTE ==> !KeyLetter(x[i + 1])
  }

  function Last(x: bytes): byte
    requires x != []
  {
    x[|x| - 1]
  }

  /** x and y differ at some common position, so they cannot both start the same text. */
  predicate Clash(x: bytes, y: bytes)
  {
    exists k :: 0 <= k < |x| && k < |y| && x[k] != y[k]
  }

  predicate Rule(sub: Substitution)
  {
    && Keyed(sub.find) && Keyed(sub.put) && Clash(sub.find, sub.put)
    && (Last(sub.find) == QUOTE <==> Last(sub.put) == QUOTE)
  }

  /** No proper suffix of w can tell the two strings of sub apart. */
  predicate Inert(w: bytes, sub: Substitution)
  {
    && |w| >= 3
    && w[0] == QUOTE && KeyLetter(w[1])
    && forall i :: 1 <= i < |w| - 1 && w[i] == QUOTE && KeyLetter(w[i + 1]) ==>
                     Clash(w[i..], sub.find) && Clash(w[i..], sub.put)
  }

  predicate Foreign(w: bytes, sub: Substitution)
  {
    Inert(w, sub) && Clash(w, sub.find) && Clash(w, sub.put)
  }

  lemma KeyedSysidOld()
    ensures Keyed(SYSID.find)
  {
  }

  lemma KeyedSysidNew()
    ensures Keyed(SYSID.put)
  {
  }

  lemma KeyedShortnameOld()
    ensures Keyed(SHORTNAME.find)
  {
  }

  lemma KeyedShortnameNew()
    ensures Keyed(SHORTNAME.put)
  {
  }

  lemma KeyedNameOld()
    ensures Keyed(NAME.find)
  {
  }

  lemma KeyedNameNew()
    ensures Keyed(NAME.put)
  {
  }

  lemma ClashAt(x: bytes, y: bytes, k: nat)
    requires k < |x| && k < |y| && x[k] != y[k]
    ensures Clash(x, y)
  {
  }

  lemma TableIsKeyed()
    ensures Rule(SYSID) && Rule(SHORTNAME) && Rule(NAME)
    ensures Last(SYSID.find) != QUOTE && Last(SHORTNAME.find) == QUOTE && Last(NAME.find) == QUOTE
  {
    KeyedSysidOld(); KeyedSysidNew();
    KeyedShortnameOld(); KeyedShortnameNew();
    KeyedNameOld(); KeyedNameNew();
    ClashAt(SYSID.find, SYSID.put, 8);
    ClashAt(SHORTNAME.find, SHORTNAME.put, 14);
    ClashAt(NAME.find, NAME.put, 14);
  }

  lemma OtherKey(w: bytes, sub: Substitution)
    requires Keyed(w) && Rule(sub)
    requires w[2] != sub.find[2] && w[2] != sub.put[2]
    ensures Foreign(w, sub)
  {
  }

  /** The third letters, y, h and a, tell the three keys apart. */
  lemma TableIsForeign()
    ensures Foreign(SYSID.find, SHORTNAME) && Foreign(SYSID.find, NAME)
    ensures Foreign(SHORTNAME.find, SYSID) && Foreign(SHORTNAME.find, NAME)
    ensures Foreign(NAME.find, SYSID) && Foreign(NAME.find, SHORTNAME)
  {
    TableIsKeyed();
    ThirdLetters();
    OtherKey(SYSID.find, SHORTNAME);
    OtherKey(SYSID.find, NAME);
    OtherKey(SHORTNAME.find, SYSID);
    OtherKey(SHORTNAME.find, NAME);
    OtherKey(NAME.find, SYSID);
    OtherKey(NAME.find, SHORTNAME);
  }

  lemma ThirdLetters()
    ensures SYSID.find[2] == SYSID.put[2] == 121
    ensures SHORTNAME.find[2] == SHORTNAME.put[2] == 104
    ensures NAME.find[2] == NAME.put[2] == 97
  {
  }

  // ---------------------------------------------------------------- what a replacement keeps in place

  /** A proper suffix of such a string starts the text before a replacement exactly if it starts it after. */
  lemma {:induction false} SuffixThrough(w: bytes, j: nat, sub: Substitution, s: bytes)
    requires Inert(w, sub) && Rule(sub) && 1 <= j <= |w|
    ensures w[j..] <= Replace(s, sub) <==> w[j..] <= s
    decreases |s|
  {
    if |s| < |sub.find| || j == |w| {
    } else if s[..|sub.find|] == sub.find {
      assert s[0] == QUOTE && KeyLetter(s[1]);
      var r := Replace(s, sub);
      assert r[0] == QUOTE && KeyLetter(r[1]);
      assert w[j..][0] == w[j];
      if j < |w| - 1 {
        assert w[j..][1] == w[j + 1];
        if w[j] == QUOTE && KeyLetter(w[j + 1]) {
          ClashPrefix(w[j..], sub.find, s[|sub.find|..]);
          ClashPrefix(w[j..], sub.put, Replace(s[|sub.find|..], sub));
          assert s == sub.find + s[|sub.find|..];
        }
      }
    } else {
      SuffixThrough(w, j + 1, sub, s[1..]);
      ConsPrefix(w, j, s);
      ConsPrefix(w, j, [s[0]] + Replace(s[1..], sub));
    }
  }

  lemma ConsPrefix(w: bytes, j: nat, s: bytes)
    requires j < |w| && s != []
    ensures w[j..] <= s <==> w[j] == s[0] && w[j + 1..] <= s[1..]
  {
  }

  /** In x followed by t, a keyed string can start only with x, at the last byte of x, or inside t. */
  lemma OccursAfter(w: bytes, x: bytes, t: bytes)
    requires |w| >= 3 && w[0] == QUOTE && KeyLetter(w[1]) && Keyed(x)
    ensures Occurs(w, x + t) <==> w <= x + t || w <= [Last(x)] + t || Occurs(w, t)
  {
    OccursCons(w, x + t);
    assert (x + t)[1..] == x[1..] + t;
    OccursInner(w, x, 1, t);
  }

  lemma {:induction false} OccursInner(w: bytes, x: bytes, k: nat, t: bytes)
    requires |w| >= 3 && w[0] == QUOTE && KeyLetter(w[1]) && Keyed(x) && 1 <= k < |x|
    ensures Occurs(w, x[k..] + t) <==> w <= [Last(x)] + t || Occurs(w, t)
    decreases |x| - k
  {
    OccursCons(w, x[k..] + t);
    assert (x[k..] + t)[1..] == x[k + 1..] + t;
    if k == |x| - 1 {
      assert x[k..] == [Last(x)] && x[k + 1..] + t == t;
    } else {
      assert (x[k..] + t)[0] == x[k] && (x[k..] + t)[1] == x[k + 1];
      OccursInner(w, x, k + 1, t);
    }
  }

  lemma LastCharThrough(w: bytes, sub: Substitution, t: bytes)
    requires Inert(w, sub) && Rule(sub)
    ensures w <= [Last(sub.find)] + t <==> w <= [Last(sub.put)] + Replace(t, sub)
  {
    SuffixThrough(w, 1, sub, t);
    ConsPrefix(w, 0, [Last(sub.find)] + t);
    ConsPrefix(w, 0, [Last(sub.put)] + Replace(t, sub));
  }

  lemma ClashPrefix(w: bytes, x: bytes, t: bytes)
    requires Clash(w, x)
    ensures !(w <= x + t)
  {
  }

  /** A string with another key occurs after a replacement exactly if it occurred before it. */
  lemma {:induction false} ForeignKept(w: bytes, sub: Substitution, s: bytes)
    requires Rule(sub) && Foreign(w, sub)
    ensures Occurs(w, Replace(s, sub)) <==> Occurs(w, s)
    decreases |s|
  {
    if |s| < |sub.find| {
    } else if s[..|sub.find|] == sub.find {
      var t := s[|sub.find|..];
      assert s == sub.find + t;
      ClashPrefix(w, sub.find, t);
      ClashPrefix(w, sub.put, Replace(t, sub));
      OccursAfter(w, sub.find, t);
      OccursAfter(w, sub.put, Replace(t, sub));
      LastCharThrough(w, sub, t);
      ForeignKept(w, sub, t);
    } else {
      var r := [s[0]] + Replace(s[1..], sub);
      OccursCons(w, s);
      OccursCons(w, r);
      assert r[1..] == Replace(s[1..], sub);
      SuffixThrough(w, 1, sub, s[1..]);
      ConsPrefix(w, 0, s);
      ConsPrefix(w, 0, r);
      ForeignKept(w, sub, s[1..]);
    }
  }

  // ---------------------------------------------------------------- what a replacement leaves behind

  /** Two copies that share one byte: the last of the first copy is the first of the second. */
  function Doubled(w: bytes): bytes
    requires w != []
  {
    w + w[1..]
  }

  lemma DoubledStarts(w: bytes, t: bytes)
    requires Keyed(w)
    ensures Doubled(w) <= w + t <==> w[1..] <= t
  {
    assert w[1..] <= t ==> w + t == Doubled(w) + t[|w| - 1..];
    if Doubled(w) <= w + t {
      assert (w + t)[|w|..][..|w| - 1] == t[..|w| - 1];
      assert Doubled(w)[|w|..] == w[1..];
    }
  }

  /** The replaced string never starts the output of its own replacement. */
  lemma NeverStarts(sub: Substitution, s: bytes)
    requires Rule(sub)
    ensures !(sub.find <= Replace(s, sub))
  {
    if |s| < |sub.find| {
    } else if s[..|sub.find|] == sub.find {
      ClashPrefix(sub.find, sub.put, Replace(s[|sub.find|..], sub));
    } else {
      SuffixThrough(sub.find, 1, sub, s[1..]);
      ConsPrefix(sub.find, 0, s);
      ConsPrefix(sub.find, 0, [s[0]] + Replace(s[1..], sub));
    }
  }

  /**
   * One pass leaves a copy behind exactly when two copies overlap in the input, which takes a
   * string whose last byte is the quote it starts with.
   */
  lemma {:induction false} LeftBehind(sub: Substitution, s: bytes)
    requires Rule(sub)
    ensures Occurs(sub.find, Replace(s, sub)) <==>
            Last(sub.find) == QUOTE && Occurs(Doubled(sub.find), s)
    decreases |s|
  {
    var w, d := sub.find, Doubled(sub.find);
    if |s| < |w| {
    } else if s[..|w|] == w {
      var t := s[|w|..];
      assert s == w + t;
      ClashPrefix(w, sub.put, Replace(t, sub));
      OccursAfter(w, sub.put, Replace(t, sub));
      LastCharThrough(w, sub, t);
      ConsPrefix(w, 0, [Last(w)] + t);
      LeftBehind(sub, t);
      OccursAfter(d, w, t);
      DoubledStarts(w, t);
    } else {
      var r := [s[0]] + Replace(s[1..], sub);
      OccursCons(w, r);
      OccursCons(d, s);
      assert r[1..] == Replace(s[1..], sub);
      NeverStarts(sub, s);
      LeftBehind(sub, s[1..]);
    }
  }

  /** Whatever the input, no two overlapping copies are left. */
  lemma {:induction false} NoDoubleLeft(sub: Substitution, s: bytes)
    requires Rule(sub) && Last(sub.find) == QUOTE
    ensures !Occurs(Doubled(sub.find), Replace(s, sub))
    decreases |s|
  {
    var w, d := sub.find, Doubled(sub.find);
    if |s| < |w| {
    } else if s[..|w|] == w {
      var t := s[|w|..];
      OccursAfter(d, sub.put, Replace(t, sub));
      ClashPrefix(w, sub.put, Replace(t, sub));
      NoDoubleSuffix(sub, 1, t);
      ConsPrefix(d, 0, [Last(sub.put)] + Replace(t, sub));
      NoDoubleLeft(sub, t);
    } else {
      var r := [s[0]] + Replace(s[1..], sub);
      OccursCons(d, r);
      assert r[1..] == Replace(s[1..], sub);
      NeverStarts(sub, s);
      NoDoubleLeft(sub, s[1..]);
    }
  }

  lemma {:induction false} NoDoubleSuffix(sub: Substitution, j: nat, s: bytes)
    requires Rule(sub) && Last(sub.find) == QUOTE && 1 <= j < |sub.find|
    ensures !(Doubled(sub.find)[j..] <= Replace(s, sub))
    decreases |s|
  {
    var w, d := sub.find, Doubled(sub.find);
    if j == |w| - 1 {
      assert d[j..] == w;
      NeverStarts(sub, s);
    } else if |s| < |w| {
    } else if s[..|w|] == w {
      var r := Replace(s, sub);
      assert r[0] == QUOTE && KeyLetter(r[1]);
      assert d[j..][0] == w[j] && (j < |w| - 1 ==> d[j..][1] == w[j + 1]);
    } else {
      ConsPrefix(d, j, [s[0]] + Replace(s[1..], sub));
      NoDoubleSuffix(sub, j + 1, s[1..]);
    }
  }

  lemma ClashLonger(w: bytes, t: bytes, x: bytes)
    requires Clash(w, x)
    ensures Clash(w + t, x)
  {
  }

  /** The second copy is the only place inside a doubled string where a key begins. */
  lemma DoubledKey(w: bytes, i: nat)
    requires Keyed(w) && Last(w) == QUOTE && 1 <= i < |Doubled(w)| - 1
    requires Doubled(w)[i] == QUOTE && KeyLetter(Doubled(w)[i + 1])
    ensures i == |w| - 1 && Doubled(w)[i..] == w
  {
  }

  lemma DoubledIsForeign(w: bytes, sub: Substitution)
    requires Keyed(w) && Last(w) == QUOTE && Foreign(w, sub)
    ensures Foreign(Doubled(w), sub)
  {
    var d := Doubled(w);
    ClashLonger(w, w[1..], sub.find);
    ClashLonger(w, w[1..], sub.put);
    forall i | 1 <= i < |d| - 1 && d[i] == QUOTE && KeyLetter(d[i + 1])
      ensures Clash(d[i..], sub.find) && Clash(d[i..], sub.put)
    {
      DoubledKey(w, i);
    }
  }

  // ---------------------------------------------------------------- the whole rewrite

  /** None of the old identity strings is left. */
  ghost predicate Clean(body: bytes)
  {
    && !Occurs(Ascii("\"sysid\":59760"), body)
    && !Occurs(Ascii("\"shortname\":\"UCKP\""), body)
    && !Occurs(Ascii("\"name\":\"UniFi Cloudkey Plus\""), body)
  }

  lemma CleanIsThree(body: bytes)
    ensures Clean(body) <==>
            !Occurs(SYSID.find, body) && !Occurs(SHORTNAME.find, body) && !Occurs(NAME.find, body)
  {
  }

  /** Two matches of one key share a quote: `bytes.replace` sees only the first of the two. */
  ghost predicate Overlapping(body: bytes)
  {
    || Occurs(Ascii("\"shortname\":\"UCKP\"") + Ascii("shortname\":\"UCKP\""), body)
    || Occurs(Ascii("\"name\":\"UniFi Cloudkey Plus\"") + Ascii("name\":\"UniFi Cloudkey Plus\""), body)
  }

  lemma TailOfAscii(s: string, t: string)
    requires s != [] && s[1..] == t
    ensures Ascii(t) == Ascii(s)[1..]
  {
    assert forall i :: 0 <= i < |t| ==> t[i] == s[i + 1];
  }

  lemma OverlappingIsDoubled(body: bytes)
    ensures Overlapping(body) <==> Occurs(Doubled(SHORTNAME.find), body) || Occurs(Doubled(NAME.find), body)
  {
    TailOfAscii("\"shortname\":\"UCKP\"", "shortname\":\"UCKP\"");
    TailOfAscii("\"name\":\"UniFi Cloudkey Plus\"", "name\":\"UniFi Cloudkey Plus\"");
  }

  lemma OverlapThroughRewrite(body: bytes)
    ensures Occurs(Doubled(SHORTNAME.find), Replace(body, SYSID)) <==> Occurs(Doubled(SHORTNAME.find), body)
    ensures Occurs(Doubled(NAME.find), Replace(Replace(body, SYSID), SHORTNAME)) <==> Occurs(Doubled(NAME.find), body)
  {
    TableIsKeyed();
    TableIsForeign();
    DoubledIsForeign(SHORTNAME.find, SYSID);
    DoubledIsForeign(NAME.find, SYSID);
    DoubledIsForeign(NAME.find, SHORTNAME);
    ForeignKept(Doubled(SHORTNAME.find), SYSID, body);
    ForeignKept(Doubled(NAME.find), SYSID, body);
    ForeignKept(Doubled(NAME.find), SHORTNAME, Replace(body, SYSID));
  }

  /** The rewrite removes every old identity string, for every body, unless two copies overlap. */
  lemma LeavesNothingBehind(body: bytes)
    ensures Clean(Rewrite(body)) <==> !Overlapping(body)
  {
    var b1 := Replace(body, SYSID);
    var b2 := Replace(b1, SHORTNAME);
    TableIsKeyed();
    TableIsForeign();
    LeftBehind(SYSID, body);
    ForeignKept(SYSID.find, SHORTNAME, b1);
    ForeignKept(SYSID.find, NAME, b2);
    LeftBehind(SHORTNAME, b1);
    ForeignKept(SHORTNAME.find, NAME, b2);
    LeftBehind(NAME, b2);
    OverlapThroughRewrite(body);
    CleanIsThree(Rewrite(body));
    OverlappingIsDoubled(body);
  }

  /** An overlapping body exists, so one pass is not always enough. */
  lemma OverlapLeavesOne()
    ensures !Clean(Rewrite(Ascii("\"name\":\"UniFi Cloudkey Plus\"") + Ascii("name\":\"UniFi Cloudkey Plus\"")))
  {
    hide Rewrite, Clean;
    var body := Ascii("\"name\":\"UniFi Cloudkey Plus\"") + Ascii("name\":\"UniFi Cloudkey Plus\"");
    assert At(body, body, 0);
    LeavesNothingBehind(body);
  }

  lemma {:induction false} NothingToReplace(sub: Substitution, s: bytes)
    requires sub.find != [] && !Occurs(sub.find, s)
    ensures Replace(s, sub) == s
    decreases |s|
  {
    if |s| >= |sub.find| {
      assert s[..|sub.find|] == sub.find ==> At(sub.find, s, 0);
      OccursCons(sub.find, s);
      NothingToReplace(sub, s[1..]);
    }
  }

  lemma CleanIsFixed(body: bytes)
    requires Clean(body)
    ensures Rewrite(body) == body
  {
    CleanIsThree(body);
    NothingToReplace(SYSID, body);
    NothingToReplace(SHORTNAME, body);
    NothingToReplace(NAME, body);
  }

  /** No overlap survives a pass, so two passes clean every body. */
  lemma TwoPassesClean(body: bytes)
    ensures Clean(Rewrite(Rewrite(body)))
  {
    var b2 := Replace(Replace(body, SYSID), SHORTNAME);
    TableIsKeyed();
    TableIsForeign();
    NoDoubleLeft(SHORTNAME, Replace(body, SYSID));
    DoubledIsForeign(SHORTNAME.find, NAME);
    ForeignKept(Doubled(SHORTNAME.find), NAME, b2);
    NoDoubleLeft(NAME, b2);
    OverlappingIsDoubled(Rewrite(body));
    LeavesNothingBehind(Rewrite(body));
  }

  /** A second pass changes nothing exactly for the bodies without overlapping matches. */
  lemma Idempotent(body: bytes)
    ensures Rewrite(Rewrite(body)) == Rewrite(body) <==> !Overlapping(body)
  {
    TwoPassesClean(body);
    LeavesNothingBehind(body);
    if Clean(Rewrite(body)) {
      CleanIsFixed(Rewrite(body));
    }
  }

  // ---------------------------------------------------------------- old becomes new

  lemma {:induction false} BehindText(a: bytes, t: bytes, sub: Substitution)
    requires QUOTE !in a && sub.find != [] && sub.find[0] == QUOTE
    ensures Replace(a + t, sub) == a + Replace(t, sub)
    ensures Occurs(sub.find, a + t) <==> Occurs(sub.find, t)
    decreases |a|
  {
    if a == [] {
      assert a + t == t && a + Replace(t, sub) == Replace(t, sub);
    } else {
      assert (a + t)[0] == a[0] && (a + t)[1..] == a[1..] + t;
      BehindText(a[1..], t, sub);
      OccursCons(sub.find, a + t);
      if |a + t| >= |sub.find| {
        assert (a + t)[..|sub.find|][0] == a[0];
      } else {
        assert Replace(t, sub) == t;
      }
    }
  }

  lemma NoQuoteNoMatch(w: bytes, b: bytes)
    requires w != [] && w[0] == QUOTE && QUOTE !in b
    ensures !Occurs(w, b)
  {
    forall i | 0 <= i && i + |w| <= |b| ensures !At(w, b, i) {
      assert b[i..i + |w|][0] == b[i];
    }
  }

  /** A match in the middle of text without quotes is replaced, and nothing else. */
  lemma MatchIsReplaced(a: bytes, b: bytes, sub: Substitution)
    requires QUOTE !in a && QUOTE !in b && Rule(sub)
    ensures Replace(a + (sub.find + b), sub) == a + (sub.put + b)
  {
    BehindText(a, sub.find + b, sub);
    NoQuoteNoMatch(sub.find, b);
    NothingToReplace(sub, b);
    var s := sub.find + b;
    assert s[..|sub.find|] == sub.find && s[|sub.find|..] == b;
  }

  lemma NoQuoteNoStart(w: bytes, c: byte, b: bytes, j: nat)
    requires 1 <= j < |w| && w[j] == QUOTE && QUOTE !in b
    ensures !(w <= [c] + b)
  {
    if |w| <= 1 + |b| {
      assert ([c] + b)[j] == b[j - 1];
    }
  }

  /** Another key's string in the middle of such text stays, provided the key has a closing quote. */
  lemma OtherStays(a: bytes, x: bytes, b: bytes, sub: Substitution, j: nat)
    requires QUOTE !in a && QUOTE !in b && Rule(sub) && Keyed(x) && Clash(sub.find, x)
    requires 1 <= j < |sub.find| && sub.find[j] == QUOTE
    ensures Replace(a + (x + b), sub) == a + (x + b)
  {
    var w := sub.find;
    ClashPrefix(w, x, b);
    OccursAfter(w, x, b);
    NoQuoteNoMatch(w, b);
    NoQuoteNoStart(w, Last(x), b, j);
    BehindText(a, x + b, sub);
    NothingToReplace(sub, a + (x + b));
  }

  lemma ClosingQuotes()
    ensures SYSID.find[6] == QUOTE && SHORTNAME.find[10] == QUOTE && NAME.find[5] == QUOTE
  {
  }

  lemma KeysClash()
    ensures Clash(SYSID.find, SHORTNAME.find) && Clash(SYSID.find, NAME.find) && Clash(SHORTNAME.find, NAME.find)
    ensures Clash(SHORTNAME.find, SYSID.put) && Clash(NAME.find, SYSID.put) && Clash(NAME.find, SHORTNAME.put)
  {
    TableIsKeyed();
    ThirdLetters();
    ClashAt(SYSID.find, SHORTNAME.find, 2);
    ClashAt(SYSID.find, NAME.find, 2);
    ClashAt(SHORTNAME.find, NAME.find, 2);
    ClashAt(SHORTNAME.find, SYSID.put, 2);
    ClashAt(NAME.find, SYSID.put, 2);
    ClashAt(NAME.find, SHORTNAME.put, 2);
  }

  /** Each old string in text without further quotes comes out as its new string, and the text stays. */
  lemma OldBecomesNew(a: bytes, b: bytes)
    requires QUOTE !in a && QUOTE !in b
    ensures Rewrite(a + (SYSID.find + b)) == a + (SYSID.put + b)
    ensures Rewrite(a + (SHORTNAME.find + b)) == a + (SHORTNAME.put + b)
    ensures Rewrite(a + (NAME.find + b)) == a + (NAME.put + b)
  {
    hide Replace, Rule, Keyed, Clash;
    TableIsKeyed();
    EachIsKeyed();
    KeysClash();
    ClosingQuotes();
    MatchIsReplaced(a, b, SYSID);
    OtherStays(a, SYSID.put, b, SHORTNAME, 10);
    OtherStays(a, SYSID.put, b, NAME, 5);
    OtherStays(a, SHORTNAME.find, b, SYSID, 6);
    MatchIsReplaced(a, b, SHORTNAME);
    OtherStays(a, SHORTNAME.put, b, NAME, 5);
    OtherStays(a, NAME.find, b, SYSID, 6);
    OtherStays(a, NAME.find, b, SHORTNAME, 10);
    MatchIsReplaced(a, b, NAME);
  }

  lemma EachIsKeyed()
    ensures Keyed(SYSID.put) && Keyed(SHORTNAME.find) && Keyed(SHORTNAME.put) && Keyed(NAME.find)
  {
    TableIsKeyed();
  }

  /** The same with the strings themselves: the identity of the CloudKey becomes that of the UNAS 2. */
  lemma CloudKeyBecomesUnas(a: bytes, b: bytes)
    requires QUOTE !in a && QUOTE !in b
    ensures Rewrite(a + (Ascii("\"sysid\":59760") + b)) == a + (Ascii("\"sysid\":60018") + b)
    ensures Rewrite(a + (Ascii("\"shortname\":\"UCKP\"") + b)) == a + (Ascii("\"shortname\":\"UNAS2B\"") + b)
    ensures Rewrite(a + (Ascii("\"name\":\"UniFi Cloudkey Plus\"") + b)) == a + (Ascii("\"name\":\"UNAS 2\"") + b)
  {
    hide Rewrite;
    OldBecomesNew(a, b);
  }

  // ---------------------------------------------------------------- length

  lemma {:induction false} ReplaceLength(sub: Substitution, s: bytes)
    requires 0 < |sub.find|
    ensures |sub.put| <= |sub.find| ==> |Replace(s, sub)| <= |s|
    ensures |sub.find| == 18 && |sub.put| == 20 ==> |Replace(s, sub)| <= |s| + 2 * (|s| / 18)
    decreases |s|
  {
    if |s| < |sub.find| {
    } else if s[..|sub.find|] == sub.find {
      ReplaceLength(sub, s[|sub.find|..]);
    } else {
      ReplaceLength(sub, s[1..]);
    }
  }

  /** Only the short-name rule lengthens a body, by two bytes for each 18 it consumes. */
  lemma GrowthBound(body: bytes)
    ensures |Rewrite(body)| <= |body| + 2 * (|body| / 18)
  {
    var b1 := Replace(body, SYSID);
    var b2 := Replace(b1, SHORTNAME);
    ReplaceLength(SYSID, body);
    ReplaceLength(SHORTNAME, b1);
    ReplaceLength(NAME, b2);
  }
}
