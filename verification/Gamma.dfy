/** The text form of gamma curves: printed on one line per curve, and parsed back into an array of curves. */
module Gamma {
  import opened Bytes
  import opened Hexadecimal

  const NEWLINE: byte := 10
  const SPACE: byte := 32
  const COMMA: byte := 44
  const SEMICOLON: byte := 59
  const PLUS: byte := 43
  const ZERO: byte := 48
  const PAGE_SIZE: nat := 4096

  // ---------------------------------------------------------------- text helpers of the kernel

  /** Position of the first `sep`, or the length. */
  function Cut(s: bytes, sep: byte): (n: nat)
    ensures n <= |s| && sep !in s[..n]
    ensures n < |s| ==> s[n] == sep
  {
    if s == [] || s[0] == sep then 0 else
      var n := Cut(s[1..], sep);
      assert s[..1 + n] == [s[0]] + s[1..][..n];
      1 + n
  }

  /** The token before the first separator, and what follows the separator if there is one. */
  function Strsep(s: bytes, sep: byte): (r: (bytes, Option<bytes>))
    ensures r.1.Some? ==> |r.1.value| < |s|
  {
    var n := Cut(s, sep);
    (s[..n], if n < |s| then Some(s[n + 1..]) else None)
  }

  /** All tokens; an empty text is one empty token. */
  function Split(s: bytes, sep: byte): (tokens: seq<bytes>)
    ensures tokens != []
    decreases |s|
  {
    var n := Cut(s, sep);
    if n < |s| then [s[..n]] + Split(s[n + 1..], sep) else [s]
  }

  /** The tokens that are still to come. */
  function Pending(rest: Option<bytes>, sep: byte): seq<bytes>
  {
    if rest.None? then [] else Split(rest.value, sep)
  }

  lemma SplitStep(s: bytes, sep: byte)
    ensures Split(s, sep)[0] == Strsep(s, sep).0
    ensures Split(s, sep)[1..] == Pending(Strsep(s, sep).1, sep)
  {
  }

  predicate IsSpace(c: byte)
  {
    9 <= c <= 13 || c == SPACE || c == 160
  }

  function TrimEnd(s: bytes): (t: bytes)
    ensures t <= s
  {
    if s == [] || !IsSpace(s[|s| - 1]) then s else TrimEnd(s[..|s| - 1])
  }

  function TrimStart(s: bytes): bytes
  {
    if s == [] || !IsSpace(s[0]) then s else TrimStart(s[1..])
  }

  function Strim(s: bytes): bytes
  {
    TrimStart(TrimEnd(s))
  }

  function DigitValue(c: byte): Option<nat>
  {
    if 48 <= c <= 57 then Some(c - 48)
    else if 97 <= c <= 102 then Some(c - 87)
    else if 65 <= c <= 70 then Some(c - 55)
    else None
  }

  function Number(digits: bytes): Option<nat>
  {
    if digits == [] then Some(0)
    else
      var high, low := Number(digits[..|digits| - 1]), DigitValue(digits[|digits| - 1]);
      if high.None? || low.None? then None else Some(16 * high.value + low.value)
  }

  /** A number in base 16 below `limit`: an optional sign, an optional prefix, digits, an optional newline. */
  function Kstrtoul(s: bytes, limit: nat): (r: Option<nat>)
    ensures r.Some? ==> r.value < limit
  {
    var a := if s != [] && s[0] == PLUS then s[1..] else s;
    var b := if |a| >= 2 && a[0] == ZERO && a[1] in {88, 120} then a[2..] else a;
    var c := if b != [] && b[|b| - 1] == NEWLINE then b[..|b| - 1] else b;
    if c == [] then None
    else
      var n := Number(c);
      if n.None? || n.value >= limit then None else n
  }

  // ---------------------------------------------------------------- parsing

  /** The values a parse stores, in order, and whether it succeeds; every error is reported as EINVAL. */
  datatype Parsed = Parsed(stored: seq<nat>, ok: bool)

  function Separator(c: byte): byte
  {
    if c == COMMA then SPACE else if c == SEMICOLON then NEWLINE else c
  }

  function Normalized(s: bytes): (t: bytes)
    ensures |t| == |s| && forall i :: 0 <= i < |s| ==> t[i] == Separator(s[i])
  {
    seq(|s|, i requires 0 <= i < |s| => Separator(s[i]))
  }

  function CString(s: bytes): bytes
  {
    s[..Cut(s, 0)]
  }

  function Row(tokens: seq<bytes>, room: nat, limit: nat): Parsed
  {
    if tokens == [] then Parsed([], room == 0)
    else if room == 0 then Parsed([], false)
    else
      var v := Kstrtoul(tokens[0], limit);
      if v.None? then Parsed([], false)
      else
        var rest := Row(tokens[1..], room - 1, limit);
        Parsed([v.value] + rest.stored, rest.ok)
  }

  function Rows(lines: seq<bytes>, room: nat, width: nat, limit: nat): Parsed
  {
    if lines == [] then Parsed([], room == 0)
    else if room == 0 then Parsed([], false)
    else
      var row := Row(Split(lines[0], SPACE), width, limit);
      if !row.ok then row
      else
        var rest := Rows(lines[1..], room - 1, width, limit);
        Parsed(row.stored + rest.stored, rest.ok)
  }

  /** Lines of the text, once its optional separators are replaced and its margins are trimmed. */
  function Lines(str: bytes): seq<bytes>
  {
    Split(Strim(Normalized(CString(str))), NEWLINE)
  }

  function Parse(str: bytes, curves: nat, values: nat, limit: nat): Parsed
  {
    Rows(Lines(str), curves, values, limit)
  }

  predicate AllNumbers(tokens: seq<bytes>, limit: nat)
  {
    forall j :: 0 <= j < |tokens| ==> Kstrtoul(tokens[j], limit).Some?
  }

  lemma TailNumbers(tokens: seq<bytes>, limit: nat)
    requires tokens != []
    ensures AllNumbers(tokens, limit) <==> Kstrtoul(tokens[0], limit).Some? && AllNumbers(tokens[1..], limit)
  {
  }

  lemma {:induction false} RowAccepted(tokens: seq<bytes>, room: nat, limit: nat)
    ensures Row(tokens, room, limit).ok <==> |tokens| == room && AllNumbers(tokens, limit)
    decreases |tokens|
  {
    hide Kstrtoul, AllNumbers;
    if tokens == [] {
      NoTokens(limit);
    } else {
      TailNumbers(tokens, limit);
      if room != 0 {
        RowAccepted(tokens[1..], room - 1, limit);
      }
    }
  }

  lemma NoTokens(limit: nat)
    ensures AllNumbers([], limit)
  {
  }

  lemma {:induction false} RowStores(tokens: seq<bytes>, room: nat, limit: nat)
    ensures |Row(tokens, room, limit).stored| <= room
    ensures |Row(tokens, room, limit).stored| <= |tokens|
    ensures Row(tokens, room, limit).ok ==> |Row(tokens, room, limit).stored| == room == |tokens|
    decreases |tokens|
  {
    hide Kstrtoul;
    if tokens != [] && room != 0 {
      RowStores(tokens[1..], room - 1, limit);
    }
  }

  lemma {:induction false} RowStored(tokens: seq<bytes>, room: nat, limit: nat, j: nat)
    requires j < |Row(tokens, room, limit).stored|
    ensures j < |tokens| && Kstrtoul(tokens[j], limit) == Some(Row(tokens, room, limit).stored[j])
    decreases |tokens|
  {
    hide Kstrtoul;
    if j > 0 {
      RowStored(tokens[1..], room - 1, limit, j - 1);
    }
  }

  lemma OneMore(n: nat, width: nat)
    ensures (n + 1) * width == n * width + width
  {
  }

  /** Whatever the text, values are stored from the front and never more than there is room for. */
  lemma {:induction false} RowsStore(lines: seq<bytes>, room: nat, width: nat, limit: nat)
    ensures |Rows(lines, room, width, limit).stored| <= room * width
    ensures Rows(lines, room, width, limit).ok ==> |Rows(lines, room, width, limit).stored| == room * width
    decreases |lines|
  {
    hide Row, Split;
    if lines != [] && room != 0 {
      RowStores(Split(lines[0], SPACE), width, limit);
      RowsStore(lines[1..], room - 1, width, limit);
      OneMore(room - 1, width);
    }
  }

  /** Value j of line i. */
  function Entry(lines: seq<bytes>, i: nat, j: nat, limit: nat): Option<nat>
    requires i < |lines|
  {
    var tokens := Split(lines[i], SPACE);
    if j < |tokens| then Kstrtoul(tokens[j], limit) else None
  }

  predicate Numbers(lines: seq<bytes>, i: nat, width: nat, limit: nat)
    requires i < |lines|
  {
    forall j :: 0 <= j < width ==> Entry(lines, i, j, limit).Some?
  }

  /** Every line has exactly `width` tokens, and every token is a number. */
  predicate Rectangular(lines: seq<bytes>, width: nat, limit: nat)
  {
    forall i :: 0 <= i < |lines| ==> |Split(lines[i], SPACE)| == width && Numbers(lines, i, width, limit)
  }

  lemma LineIsRow(lines: seq<bytes>, i: nat, width: nat, limit: nat)
    requires i < |lines|
    ensures var row := Row(Split(lines[i], SPACE), width, limit);
            && (row.ok <==> |Split(lines[i], SPACE)| == width && Numbers(lines, i, width, limit))
            && (row.ok ==> |row.stored| == width)
            && forall j :: 0 <= j < |row.stored| ==> Entry(lines, i, j, limit) == Some(row.stored[j])
  {
    hide Row, Split, Kstrtoul;
    var tokens := Split(lines[i], SPACE);
    RowAccepted(tokens, width, limit);
    RowStores(tokens, width, limit);
    forall j | 0 <= j < |Row(tokens, width, limit).stored|
      ensures Entry(lines, i, j, limit) == Some(Row(tokens, width, limit).stored[j])
    {
      RowStored(tokens, width, limit, j);
    }
    assert forall j :: 0 <= j < |tokens| ==> Entry(lines, i, j, limit) == Kstrtoul(tokens[j], limit);
  }

  lemma EntryBehind(lines: seq<bytes>, i: nat, j: nat, limit: nat)
    requires i + 1 < |lines|
    ensures Entry(lines[1..], i, j, limit) == Entry(lines, i + 1, j, limit)
  {
  }

  lemma RectangularTail(lines: seq<bytes>, width: nat, limit: nat)
    requires lines != []
    ensures Rectangular(lines, width, limit) <==>
            Row(Split(lines[0], SPACE), width, limit).ok && Rectangular(lines[1..], width, limit)
  {
    hide Row, Split, Entry, Numbers, Rectangular;
    LineIsRow(lines, 0, width, limit);
    var rest := lines[1..];
    forall i | 0 <= i < |rest|
      ensures rest[i] == lines[i + 1] && Numbers(rest, i, width, limit) == Numbers(lines, i + 1, width, limit)
    {
      NumbersBehind(lines, i, width, limit);
    }
    FromTail(lines, width, limit);
  }

  lemma NumbersBehind(lines: seq<bytes>, i: nat, width: nat, limit: nat)
    requires i + 1 < |lines|
    ensures lines[1..][i] == lines[i + 1]
    ensures Numbers(lines[1..], i, width, limit) == Numbers(lines, i + 1, width, limit)
  {
    hide Entry;
    var k: nat := i + 1;
    forall j | 0 <= j < width ensures Entry(lines[1..], i, j, limit) == Entry(lines, k, j, limit) {
      EntryBehind(lines, i, j, limit);
    }
  }

  lemma FromTail(lines: seq<bytes>, width: nat, limit: nat)
    requires lines != []
    requires forall i :: 0 <= i < |lines| - 1 ==>
                           && lines[1..][i] == lines[i + 1]
                           && Numbers(lines[1..], i, width, limit) == Numbers(lines, i + 1, width, limit)
    ensures Rectangular(lines, width, limit) <==>
            && |Split(lines[0], SPACE)| == width
            && Numbers(lines, 0, width, limit)
            && Rectangular(lines[1..], width, limit)
  {
  }

  /** A text is accepted exactly if it has one line per curve, and on each line one number per value. */
  lemma {:induction false} AcceptedExactly(lines: seq<bytes>, room: nat, width: nat, limit: nat)
    ensures Rows(lines, room, width, limit).ok <==> |lines| == room && Rectangular(lines, width, limit)
    decreases |lines|
  {
    hide Row, Split, Rectangular;
    if lines == [] {
      NoLines(width, limit);
    } else if room != 0 {
      RectangularTail(lines, width, limit);
      AcceptedExactly(lines[1..], room - 1, width, limit);
    }
  }

  lemma NoLines(width: nat, limit: nat)
    ensures Rectangular([], width, limit)
  {
  }

  /** Two spaces in a row enclose an empty token. */
  lemma {:induction false} AdjacentSeparators(s: bytes, sep: byte, k: nat) returns (j: nat)
    requires k + 1 < |s| && s[k] == sep && s[k + 1] == sep
    ensures j < |Split(s, sep)| && Split(s, sep)[j] == []
    decreases |s|
  {
    hide Cut, Split;
    var n := Cut(s, sep);
    NotBefore(s, sep, n);
    var rest := s[n + 1..];
    SplitFirst(s, sep);
    if n == k {
      CutIs(rest, sep, 0);
      SplitFirst(rest, sep);
      j := 1;
    } else {
      var i := AdjacentSeparators(rest, sep, k - n - 1);
      j := i + 1;
    }
  }

  lemma EmptyTokenIsRejected(lines: seq<bytes>, room: nat, width: nat, limit: nat, i: nat, k: nat)
    requires i < |lines| && k + 1 < |lines[i]| && lines[i][k] == SPACE && lines[i][k + 1] == SPACE
    ensures !Rows(lines, room, width, limit).ok
  {
    hide Rows, Split;
    AcceptedExactly(lines, room, width, limit);
    var j := AdjacentSeparators(lines[i], SPACE, k);
    assert Entry(lines, i, j, limit).None?;
    if Rectangular(lines, width, limit) {
      assert Numbers(lines, i, width, limit);
    }
  }

  /** Two bytes that are no separators stay next to each other in one of the tokens. */
  lemma {:induction false} StaysInToken(s: bytes, sep: byte, k: nat) returns (i: nat, j: nat)
    requires k + 1 < |s| && s[k] != sep && s[k + 1] != sep
    ensures i < |Split(s, sep)| && j + 1 < |Split(s, sep)[i]|
    ensures Split(s, sep)[i][j] == s[k] && Split(s, sep)[i][j + 1] == s[k + 1]
    decreases |s|
  {
    hide Cut, Split;
    SplitFirst(s, sep);
    var n := Cut(s, sep);
    if k < n {
      i, j := 0, k;
    } else {
      var rest := s[n + 1..];
      i, j := StaysInToken(rest, sep, k - n - 1);
      assert rest[k - n - 1] == s[k] && rest[k - n] == s[k + 1];
      i := i + 1;
    }
  }

  lemma SplitFirst(s: bytes, sep: byte)
    ensures Cut(s, sep) == |s| ==> Split(s, sep) == [s]
    ensures Cut(s, sep) < |s| ==> Split(s, sep) == [s[..Cut(s, sep)]] + Split(s[Cut(s, sep) + 1..], sep)
  {
    hide Cut;
  }

  lemma {:induction false} TrimEndKeeps(s: bytes, b: nat)
    requires b < |s| && !IsSpace(s[b])
    ensures b < |TrimEnd(s)|
    decreases |s|
  {
    if IsSpace(s[|s| - 1]) {
      TrimEndKeeps(s[..|s| - 1], b);
    }
  }

  lemma {:induction false} TrimStartKeeps(s: bytes, a: nat) returns (lo: nat)
    requires a < |s| && !IsSpace(s[a])
    ensures lo <= a && TrimStart(s) == s[lo..]
    decreases |s|
  {
    if IsSpace(s[0]) {
      lo := TrimStartKeeps(s[1..], a - 1);
      assert s[1..][lo..] == s[1 + lo..];
      lo := lo + 1;
    } else {
      lo := 0;
    }
  }

  /** Trimming keeps everything between two bytes that are not white space. */
  lemma StrimKeeps(s: bytes, a: nat, b: nat) returns (lo: nat)
    requires a < b < |s| && !IsSpace(s[a]) && !IsSpace(s[b])
    ensures lo <= a && lo + |Strim(s)| > b
    ensures forall k :: lo <= k <= b ==> Strim(s)[k - lo] == s[k]
  {
    TrimEndKeeps(s, b);
    var t := TrimEnd(s);
    assert forall k :: 0 <= k < |t| ==> t[k] == s[k];
    lo := TrimStartKeeps(t, a);
    var u := t[lo..];
    assert forall k :: lo <= k <= b ==> u[k - lo] == t[k];
  }

  /** A text is accepted exactly if, separators replaced and margins trimmed, it is one line per curve of numbers. */
  lemma TextAcceptedExactly(str: bytes, curves: nat, values: nat, limit: nat)
    ensures Parse(str, curves, values, limit).ok <==> |Lines(str)| == curves && Rectangular(Lines(str), values, limit)
  {
    hide Rows, Rectangular, Lines;
    AcceptedExactly(Lines(str), curves, values, limit);
  }

  /**
   * Two adjacent separators of values with other text before and after them, such as the comma and the space of
   * "1, 2", make the whole text unacceptable: the token between them is empty, and no number.
   */
  lemma AdjacentSeparatorsAreRejected(str: bytes, curves: nat, values: nat, limit: nat, a: nat, k: nat, b: nat)
    requires a < k && k + 1 < b < |CString(str)|
    requires CString(str)[k] in {SPACE, COMMA} && CString(str)[k + 1] in {SPACE, COMMA}
    requires !IsSpace(Separator(CString(str)[a])) && !IsSpace(Separator(CString(str)[b]))
    ensures !Parse(str, curves, values, limit).ok
  {
    hide Rows, Split, Strim, CString;
    var t := Normalized(CString(str));
    var lo := StrimKeeps(t, a, b);
    var u := Strim(t);
    assert u[k - lo] == SPACE && u[k + 1 - lo] == SPACE;
    var i, j := StaysInToken(u, NEWLINE, k - lo);
    EmptyTokenIsRejected(Split(u, NEWLINE), curves, values, limit, i, j);
  }

  /** What an accepted text says at (i, j) is stored row by row, at index i * width + j. */
  lemma {:induction false} StoredRowMajor(lines: seq<bytes>, room: nat, width: nat, limit: nat, i: nat, j: nat)
    requires Rows(lines, room, width, limit).ok && i < room && j < width
    ensures i < |lines| && 0 <= i * width + j < |Rows(lines, room, width, limit).stored|
    ensures Entry(lines, i, j, limit) == Some(Rows(lines, room, width, limit).stored[i * width + j])
    decreases i
  {
    hide Row, Split, Entry;
    var row := Row(Split(lines[0], SPACE), width, limit);
    var rest := Rows(lines[1..], room - 1, width, limit);
    LineIsRow(lines, 0, width, limit);
    assert Rows(lines, room, width, limit).stored == row.stored + rest.stored;
    if i != 0 {
      StoredRowMajor(lines[1..], room - 1, width, limit, i - 1, j);
      EntryBehind(lines, i - 1, j, limit);
      OneMore(i - 1, width);
    }
  }

  /**
   * Parses into `curves`, replacing separators in a copy of the text. Stores happen before the text is known
   * to be in order; the contract gives the whole array in either case.
   */
  method ParseStr(curves: array<nat>, str: bytes, numCurves: nat, numValues: nat, limit: nat) returns (ok: bool)
    requires numCurves * numValues <= curves.Length
    modifies curves
    ensures var parsed := Parse(str, numCurves, numValues, limit);
            && ok == parsed.ok
            && |parsed.stored| <= numCurves * numValues
            && curves[..] == Stored(old(curves[..]), 0, parsed.stored)
  {
    hide Split, Rows, Row, Kstrtoul, Strim, Cut;
    var tmp := Terminated(str);
    var p := 0;
    ghost var text := tmp[..];
    TerminatedCut(str);
    while tmp[p] != 0
      invariant 0 <= p <= Cut(text, 0) < tmp.Length == |text|
      invariant forall k :: 0 <= k < p ==> tmp[k] == Separator(text[k])
      invariant forall k :: p <= k < tmp.Length ==> tmp[k] == text[k]
      decreases tmp.Length - p
      modifies tmp
    {
      if tmp[p] == COMMA {
        tmp[p] := SPACE;
      }
      if tmp[p] == SEMICOLON {
        tmp[p] := NEWLINE;
      }
      p := p + 1;
    }
    NotBefore(text, 0, Cut(text, 0));
    assert tmp[..p] == Normalized(CString(str));
    ok := ParseLines(curves, Strim(tmp[..p]), numCurves, numValues, limit);
    RowsStore(Lines(str), numCurves, numValues, limit);
  }

  method Terminated(str: bytes) returns (tmp: array<byte>)
    ensures fresh(tmp) && tmp[..] == str + [0]
  {
    tmp := new byte[|str| + 1](i requires 0 <= i < |str| + 1 => if i < |str| then str[i] else 0);
    assert tmp[..] == str + [0];
  }

  lemma NotBefore(s: bytes, c: byte, n: nat)
    requires n <= |s| && c !in s[..n]
    ensures forall k :: 0 <= k < n ==> s[k] != c
  {
  }

  lemma CutIs(s: bytes, sep: byte, n: nat)
    requires n <= |s| && sep !in s[..n] && (n < |s| ==> s[n] == sep)
    ensures Cut(s, sep) == n
  {
  }

  lemma TerminatedCut(str: bytes)
    ensures Cut(str + [0], 0) <= |str| && (str + [0])[..Cut(str + [0], 0)] == CString(str)
  {
    hide Cut;
    var n := Cut(str, 0);
    assert (str + [0])[..n] == str[..n];
    CutIs(str + [0], 0, n);
  }

  /** The outer loop, over the lines of the trimmed text. */
  method ParseLines(curves: array<nat>, text: bytes, numCurves: nat, numValues: nat, limit: nat) returns (ok: bool)
    requires numCurves * numValues <= curves.Length
    modifies curves
    ensures var parsed := Rows(Split(text, NEWLINE), numCurves, numValues, limit);
            && ok == parsed.ok
            && |parsed.stored| <= curves.Length
            && curves[..] == Stored(old(curves[..]), 0, parsed.stored)
  {
    hide Split, Rows, Row, Kstrtoul, Cut, LinesTo, Strsep, Stored;
    ghost var all := Rows(Split(text, NEWLINE), numCurves, numValues, limit);
    RowsStore(Split(text, NEWLINE), numCurves, numValues, limit);
    var strP := Some(text);
    var counter, base: nat := 0, 0;
    ghost var done: seq<nat> := [];
    LinesStart(text, numCurves, numValues, limit);
    NothingStored(curves[..], 0);
    while strP.Some?
      invariant counter <= numCurves && base == counter * numValues
      invariant base == |done| && base <= curves.Length
      invariant curves[..] == Stored(old(curves[..]), 0, done)
      invariant LinesTo(all, done, strP, numCurves - counter, numValues, limit)
      decreases if strP.Some? then 1 + |strP.value| else 0
    {
      if counter == numCurves {
        LinesTooMany(all, done, strP.value, numValues, limit);
        return false;
      }
      var (line, rest) := Strsep(strP.value, NEWLINE);
      RoomLeft(numCurves, counter, numValues);
      RowStores(Split(line, SPACE), numValues, limit);
      ghost var row := Row(Split(line, SPACE), numValues, limit);
      ok := ParseValues(curves, base, line, numValues, limit);
      StoreRow(old(curves[..]), done, row.stored);
      LinesStep(all, done, strP.value, numCurves - counter, numValues, limit);
      if !ok {
        return false;
      }
      done := done + row.stored;
      counter := counter + 1;
      base := base + numValues;
      strP := rest;
    }
    LinesEnd(all, done, numCurves - counter, numValues, limit);
    ok := counter == numCurves;
  }

  /** The inner loop, over the numbers of one line, which are stored from `base` on. */
  method ParseValues(curves: array<nat>, base: nat, line: bytes, numValues: nat, limit: nat) returns (ok: bool)
    requires base + numValues <= curves.Length
    modifies curves
    ensures var row := Row(Split(line, SPACE), numValues, limit);
            && ok == row.ok
            && |row.stored| <= numValues
            && curves[..] == Stored(old(curves[..]), base, row.stored)
  {
    hide Split, Row, Kstrtoul, Cut, TokensTo, Strsep, Stored;
    ghost var all := Row(Split(line, SPACE), numValues, limit);
    RowStores(Split(line, SPACE), numValues, limit);
    var curveP := Some(line);
    var counter: nat := 0;
    ghost var done: seq<nat> := [];
    TokensStart(line, numValues, limit);
    NothingStored(curves[..], base);
    while curveP.Some?
      invariant counter == |done| && counter <= numValues
      invariant curves[..] == Stored(old(curves[..]), base, done)
      invariant TokensTo(all, done, curveP, numValues - counter, limit)
      decreases if curveP.Some? then 1 + |curveP.value| else 0
    {
      if counter == numValues {
        TokensTooMany(all, done, curveP.value, limit);
        return false;
      }
      var (token, rest) := Strsep(curveP.value, SPACE);
      TokensStep(all, done, curveP.value, numValues - counter, limit);
      var val := Kstrtoul(token, limit);
      if val.None? {
        return false;
      }
      StoreOne(old(curves[..]), base, done, val.value);
      ghost var before := curves[..];
      curves[base + counter] := val.value;
      assert curves[..] == before[base + counter := val.value];
      done := done + [val.value];
      counter := counter + 1;
      curveP := rest;
    }
    TokensEnd(all, done, numValues - counter, limit);
    ok := counter == numValues;
  }

  /** The array `first` with `values` stored from `base` on. */
  function Stored(first: seq<nat>, base: nat, values: seq<nat>): (s: seq<nat>)
    requires base + |values| <= |first|
    ensures |s| == |first|
  {
    first[..base] + values + first[base + |values|..]
  }

  lemma NothingStored(first: seq<nat>, base: nat)
    requires base <= |first|
    ensures Stored(first, base, []) == first
  {
  }

  lemma StoreRow(first: seq<nat>, done: seq<nat>, row: seq<nat>)
    requires |done| + |row| <= |first|
    ensures Stored(Stored(first, 0, done), |done|, row) == Stored(first, 0, done + row)
  {
  }

  lemma StoreOne(first: seq<nat>, base: nat, done: seq<nat>, v: nat)
    requires base + |done| < |first|
    ensures Stored(first, base, done)[base + |done| := v] == Stored(first, base, done + [v])
  {
  }

  /** What has been stored, and then what the pending lines store, is what the whole text stores. */
  ghost predicate LinesTo(all: Parsed, done: seq<nat>, rest: Option<bytes>, room: nat, width: nat, limit: nat)
  {
    all == After(done, Rows(Pending(rest, NEWLINE), room, width, limit))
  }

  lemma LinesStart(text: bytes, room: nat, width: nat, limit: nat)
    ensures LinesTo(Rows(Split(text, NEWLINE), room, width, limit), [], Some(text), room, width, limit)
  {
  }

  lemma LinesTooMany(all: Parsed, done: seq<nat>, text: bytes, width: nat, limit: nat)
    requires LinesTo(all, done, Some(text), 0, width, limit)
    ensures all == Parsed(done, false)
  {
  }

  lemma LinesStep(all: Parsed, done: seq<nat>, text: bytes, room: nat, width: nat, limit: nat)
    requires room > 0 && LinesTo(all, done, Some(text), room, width, limit)
    ensures var row := Row(Split(Strsep(text, NEWLINE).0, SPACE), width, limit);
            if row.ok then LinesTo(all, done + row.stored, Strsep(text, NEWLINE).1, room - 1, width, limit)
            else all == Parsed(done + row.stored, false)
  {
    hide Split, Row, Strsep;
    SplitStep(text, NEWLINE);
    var row := Row(Split(Strsep(text, NEWLINE).0, SPACE), width, limit);
    var rest := Rows(Pending(Strsep(text, NEWLINE).1, NEWLINE), room - 1, width, limit);
    assert Rows(Split(text, NEWLINE), room, width, limit) == if row.ok then After(row.stored, rest) else row;
    AfterTwice(done, row.stored, rest);
  }

  lemma LinesEnd(all: Parsed, done: seq<nat>, room: nat, width: nat, limit: nat)
    requires LinesTo(all, done, None, room, width, limit)
    ensures all == Parsed(done, room == 0)
  {
  }

  /** The same for the numbers of one line. */
  ghost predicate TokensTo(all: Parsed, done: seq<nat>, rest: Option<bytes>, room: nat, limit: nat)
  {
    all == After(done, Row(Pending(rest, SPACE), room, limit))
  }

  lemma TokensStart(line: bytes, room: nat, limit: nat)
    ensures TokensTo(Row(Split(line, SPACE), room, limit), [], Some(line), room, limit)
  {
  }

  lemma TokensTooMany(all: Parsed, done: seq<nat>, line: bytes, limit: nat)
    requires TokensTo(all, done, Some(line), 0, limit)
    ensures all == Parsed(done, false)
  {
  }

  lemma TokensStep(all: Parsed, done: seq<nat>, line: bytes, room: nat, limit: nat)
    requires room > 0 && TokensTo(all, done, Some(line), room, limit)
    ensures var v := Kstrtoul(Strsep(line, SPACE).0, limit);
            if v.Some? then TokensTo(all, done + [v.value], Strsep(line, SPACE).1, room - 1, limit)
            else all == Parsed(done, false)
  {
    hide Split, Strsep, Kstrtoul;
    SplitStep(line, SPACE);
    var v := Kstrtoul(Strsep(line, SPACE).0, limit);
    var rest := Row(Pending(Strsep(line, SPACE).1, SPACE), room - 1, limit);
    assert Row(Split(line, SPACE), room, limit) == if v.Some? then After([v.value], rest) else Parsed([], false);
    if v.Some? {
      AfterTwice(done, [v.value], rest);
    } else {
      assert done + [] == done;
    }
  }

  lemma TokensEnd(all: Parsed, done: seq<nat>, room: nat, limit: nat)
    requires TokensTo(all, done, None, room, limit)
    ensures all == Parsed(done, room == 0)
  {
  }

  function After(done: seq<nat>, rest: Parsed): Parsed
  {
    Parsed(done + rest.stored, rest.ok)
  }

  lemma AfterTwice(a: seq<nat>, b: seq<nat>, rest: Parsed)
    ensures After(a, After(b, rest)) == After(a + b, rest)
  {
  }

  lemma RoomLeft(curves: nat, counter: nat, values: nat)
    requires counter < curves
    ensures counter * values + values == (counter + 1) * values <= curves * values
  {
  }

  // ---------------------------------------------------------------- printing

  function Join(tokens: seq<bytes>, sep: byte): bytes
    requires tokens != []
  {
    if |tokens| == 1 then tokens[0] else tokens[0] + [sep] + Join(tokens[1..], sep)
  }

  function Hexes(row: seq<nat>): (t: seq<bytes>)
    ensures |t| == |row| && forall j :: 0 <= j < |row| ==> t[j] == Hex(row[j], 4)
  {
    seq(|row|, j requires 0 <= j < |row| => Hex(row[j], 4))
  }

  predicate Full(rows: seq<seq<nat>>)
  {
    forall i :: 0 <= i < |rows| ==> rows[i] != []
  }

  function PrintRow(row: seq<nat>): bytes
    requires row != []
  {
    Join(Hexes(row), SPACE)
  }

  /** One line per curve. */
  function Print(rows: seq<seq<nat>>): bytes
    requires Full(rows)
  {
    if rows == [] then [] else PrintRow(rows[0]) + [NEWLINE] + Print(rows[1..])
  }

  /** The curves in an array of values, row by row. */
  function Matrix(values: seq<nat>, count: nat, width: nat): (rows: seq<seq<nat>>)
    requires |values| == count * width
    ensures |rows| == count && forall i :: 0 <= i < count ==> |rows[i]| == width
    ensures forall i, j :: 0 <= i < count && 0 <= j < |rows[i]| ==> rows[i][j] in values
  {
    if count == 0 then [] else
      assert |values| == (count - 1) * width + width;
      [values[..width]] + Matrix(values[width..], count - 1, width)
  }

  predicate IsDigit(c: byte)
  {
    48 <= c <= 57 || 97 <= c <= 102
  }

  predicate AllDigits(s: bytes)
  {
    s != [] && forall i :: 0 <= i < |s| ==> IsDigit(s[i])
  }

  lemma {:induction false} HexIsNumber(v: nat, width: nat)
    ensures AllDigits(Hex(v, width))
    ensures Number(Hex(v, width)) == Some(v)
    decreases v, width
  {
    var s := Hex(v, width);
    DigitRoundTrip(v % 16);
    if v < 16 && width <= 1 {
      assert s[..0] == [];
      assert Number(s[..0]) == Some(0);
      assert Number(s) == Some(16 * 0 + v);
    } else {
      var w := if width == 0 then 0 else width - 1;
      HexIsNumber(v / 16, w);
      assert s[..|s| - 1] == Hex(v / 16, w);
      assert 16 * (v / 16) + v % 16 == v;
    }
  }

  lemma DigitRoundTrip(d: nat)
    requires d < 16
    ensures IsDigit(Digit(d)) && DigitValue(Digit(d)) == Some(d)
  {
  }

  lemma HexIsAccepted(v: nat, limit: nat)
    requires v < limit
    ensures Kstrtoul(Hex(v, 4), limit) == Some(v)
  {
    hide Number, Hex;
    HexIsNumber(v, 4);
  }

  lemma {:induction false} SplitJoin(tokens: seq<bytes>, sep: byte)
    requires tokens != [] && forall i :: 0 <= i < |tokens| ==> sep !in tokens[i]
    ensures Split(Join(tokens, sep), sep) == tokens
    decreases |tokens|
  {
    hide Cut;
    var s := Join(tokens, sep);
    if |tokens| == 1 {
      assert s[..|s|] == s;
      CutIs(s, sep, |s|);
      assert tokens == [s];
    } else {
      var rest := Join(tokens[1..], sep);
      SplitJoin(tokens[1..], sep);
      assert s[..|tokens[0]|] == tokens[0] && s[|tokens[0]|] == sep;
      CutIs(s, sep, |tokens[0]|);
      assert s[|tokens[0]| + 1..] == rest;
      assert tokens == [tokens[0]] + tokens[1..];
    }
  }

  lemma {:induction false} JoinIn(tokens: seq<bytes>, sep: byte, c: byte)
    requires tokens != [] && c != sep
    ensures c in Join(tokens, sep) <==> exists i :: 0 <= i < |tokens| && c in tokens[i]
    decreases |tokens|
  {
    if |tokens| > 1 {
      JoinIn(tokens[1..], sep, c);
      assert forall i :: 0 < i < |tokens| ==> tokens[i] == tokens[1..][i - 1];
      assert forall i :: 0 <= i < |tokens| - 1 ==> tokens[1..][i] == tokens[i + 1];
    }
  }

  lemma RowHasNo(row: seq<nat>, c: byte)
    requires row != [] && !IsDigit(c) && c != SPACE
    ensures c !in PrintRow(row)
  {
    hide Hex, Join;
    JoinIn(Hexes(row), SPACE, c);
    forall j | 0 <= j < |row| ensures c !in Hexes(row)[j] {
      HexIsNumber(row[j], 4);
    }
  }

  /** One printed line is read back as the values it was printed from. */
  lemma RowRoundTrip(row: seq<nat>, limit: nat)
    requires row != [] && forall j :: 0 <= j < |row| ==> row[j] < limit
    ensures Row(Split(PrintRow(row), SPACE), |row|, limit) == Parsed(row, true)
  {
    hide Hex, Join, Split, Row, Kstrtoul;
    var tokens := Hexes(row);
    forall j | 0 <= j < |row| ensures SPACE !in tokens[j] && Kstrtoul(tokens[j], limit) == Some(row[j]) {
      HexIsNumber(row[j], 4);
      HexIsAccepted(row[j], limit);
    }
    SplitJoin(tokens, SPACE);
    RowAccepted(tokens, |row|, limit);
    RowStores(tokens, |row|, limit);
    var stored := Row(tokens, |row|, limit).stored;
    forall j | 0 <= j < |row| ensures stored[j] == row[j] {
      RowStored(tokens, |row|, limit, j);
    }
    assert stored == row;
  }

  function PrintedRows(rows: seq<seq<nat>>): (t: seq<bytes>)
    requires Full(rows)
    ensures |t| == |rows| && forall i :: 0 <= i < |rows| ==> t[i] == PrintRow(rows[i])
  {
    seq(|rows|, i requires 0 <= i < |rows| => PrintRow(rows[i]))
  }

  lemma {:induction false} PrintIsJoin(rows: seq<seq<nat>>)
    requires Full(rows) && rows != []
    ensures Print(rows) == Join(PrintedRows(rows), NEWLINE) + [NEWLINE]
    decreases |rows|
  {
    hide PrintRow;
    var lines := PrintedRows(rows);
    if |rows| == 1 {
      assert Print(rows[1..]) == [];
    } else {
      PrintIsJoin(rows[1..]);
      assert lines[1..] == PrintedRows(rows[1..]);
      Associate(lines[0] + [NEWLINE], Join(lines[1..], NEWLINE), [NEWLINE]);
    }
  }

  lemma EndsOfJoin(tokens: seq<bytes>, sep: byte)
    requires tokens != [] && forall i :: 0 <= i < |tokens| ==> tokens[i] != []
    ensures Join(tokens, sep) != []
    ensures Join(tokens, sep)[0] == tokens[0][0]
    ensures Join(tokens, sep)[|Join(tokens, sep)| - 1] == tokens[|tokens| - 1][|tokens[|tokens| - 1]| - 1]
    decreases |tokens|
  {
  }

  lemma RowEnds(row: seq<nat>)
    requires row != []
    ensures PrintRow(row) != []
    ensures IsDigit(PrintRow(row)[0]) && IsDigit(PrintRow(row)[|PrintRow(row)| - 1])
  {
    hide Hex, Join;
    forall j | 0 <= j < |row| ensures AllDigits(Hexes(row)[j]) {
      HexIsNumber(row[j], 4);
    }
    EndsOfJoin(Hexes(row), SPACE);
  }

  lemma TrimNewline(s: bytes)
    requires s != [] && IsDigit(s[0]) && IsDigit(s[|s| - 1])
    ensures Strim(s + [NEWLINE]) == s
  {
    var t := s + [NEWLINE];
    assert t[..|t| - 1] == s;
    assert TrimEnd(t) == TrimEnd(s) == s;
  }

  /** The printed text passes unchanged through separator replacement; trimming takes off the last newline. */
  lemma PrintedLines(rows: seq<seq<nat>>)
    requires Full(rows) && rows != []
    ensures Lines(Print(rows)) == PrintedRows(rows)
  {
    hide PrintRow, Join, Split, Strim, Cut, Print, Normalized;
    var lines := PrintedRows(rows);
    var text := Join(lines, NEWLINE);
    PrintIsJoin(rows);
    forall i | 0 <= i < |rows| ensures lines[i] != [] && NEWLINE !in lines[i] {
      RowEnds(rows[i]);
      RowHasNo(rows[i], NEWLINE);
    }
    forall c: byte | c in {0, COMMA, SEMICOLON} ensures c !in Print(rows) {
      forall i | 0 <= i < |rows| ensures c !in lines[i] {
        RowHasNo(rows[i], c);
      }
      JoinIn(lines, NEWLINE, c);
    }
    Unchanged(Print(rows));
    EndsOfJoin(lines, NEWLINE);
    RowEnds(rows[0]);
    RowEnds(rows[|rows| - 1]);
    TrimNewline(text);
    SplitJoin(lines, NEWLINE);
  }

  lemma Unchanged(s: bytes)
    requires 0 !in s && COMMA !in s && SEMICOLON !in s
    ensures Normalized(CString(s)) == s
  {
  }

  function Flatten(rows: seq<seq<nat>>): seq<nat>
  {
    if rows == [] then [] else rows[0] + Flatten(rows[1..])
  }

  lemma {:induction false} RowsRoundTrip(rows: seq<seq<nat>>, width: nat, limit: nat)
    requires Full(rows) && forall i :: 0 <= i < |rows| ==> |rows[i]| == width
    requires forall i, j :: 0 <= i < |rows| && 0 <= j < |rows[i]| ==> rows[i][j] < limit
    ensures Rows(PrintedRows(rows), |rows|, width, limit) == Parsed(Flatten(rows), true)
    decreases |rows|
  {
    hide PrintRow, Row, Split;
    if rows != [] {
      RowRoundTrip(rows[0], limit);
      RowsRoundTrip(rows[1..], width, limit);
      assert PrintedRows(rows)[1..] == PrintedRows(rows[1..]);
    }
  }

  lemma {:induction false} FlattenMatrix(values: seq<nat>, count: nat, width: nat)
    requires |values| == count * width
    ensures Flatten(Matrix(values, count, width)) == values
    decreases count
  {
    if count != 0 {
      assert |values| == (count - 1) * width + width;
      FlattenMatrix(values[width..], count - 1, width);
      assert Matrix(values, count, width)[1..] == Matrix(values[width..], count - 1, width);
    }
  }

  /** What is printed is parsed back into the same array, for every matrix of values that exist. */
  lemma RoundTrip(values: seq<nat>, count: nat, width: nat, limit: nat)
    requires |values| == count * width > 0
    requires forall i :: 0 <= i < |values| ==> values[i] < limit
    ensures Full(Matrix(values, count, width))
    ensures Parse(Print(Matrix(values, count, width)), count, width, limit) == Parsed(values, true)
  {
    hide Print, Rows, Matrix, Lines, PrintedRows, PrintRow;
    assert width > 0 && count > 0;
    var rows := Matrix(values, count, width);
    assert rows != [] && Full(rows);
    PrintedLines(rows);
    RowsRoundTrip(rows, width, limit);
    FlattenMatrix(values, count, width);
  }

  // ---------------------------------------------------------------- characters by number

  /** Spaces and commas are the same to the parser, and so are newlines and semicolons. */
  predicate SameSeparators(s: bytes, t: bytes)
  {
    |s| == |t| && forall i :: 0 <= i < |s| ==> s[i] == t[i] || {s[i], t[i]} == {32, 44} || {s[i], t[i]} == {10, 59}
  }

  lemma SeparatorsInterchange(s: bytes, t: bytes, curves: nat, values: nat, limit: nat)
    requires SameSeparators(s, t)
    ensures Parse(s, curves, values, limit) == Parse(t, curves, values, limit)
  {
    hide Rows, Split, Strim, Cut;
    assert forall i :: 0 <= i < |s| ==> (s[i] == 0 <==> t[i] == 0) && Separator(s[i]) == Separator(t[i]);
    var n := Cut(s, 0);
    NotBefore(s, 0, n);
    CutIs(t, 0, n);
    assert Normalized(CString(s)) == Normalized(CString(t));
  }

  /** Digits count from '0', from 'a' and from 'A', and nothing else is a digit. */
  lemma DigitByCharacter(c: byte)
    ensures DigitValue(c) ==
            if '0' as int <= c <= '9' as int then Some(c - '0' as int)
            else if 'a' as int <= c <= 'f' as int then Some(c - 'a' as int + 10)
            else if 'A' as int <= c <= 'F' as int then Some(c - 'A' as int + 10)
            else None
  {
  }

  predicate SameButCase(s: bytes, t: bytes)
  {
    |s| == |t| && forall i :: 0 <= i < |s| ==> s[i] == t[i] || (97 <= s[i] <= 102 && t[i] == s[i] - 32)
  }

  lemma {:induction false} CaseDoesNotMatter(s: bytes, t: bytes)
    requires SameButCase(s, t)
    ensures Number(s) == Number(t)
    decreases |s|
  {
    if s != [] {
      CaseDoesNotMatter(s[..|s| - 1], t[..|t| - 1]);
    }
  }

  /** A plus sign or a 0x in front of a number is accepted and changes nothing. */
  lemma PrefixesAreAccepted(v: nat, limit: nat)
    requires v < limit
    ensures Kstrtoul(Ascii("+") + Hex(v, 4), limit) == Some(v)
    ensures Kstrtoul(Ascii("0x") + Hex(v, 4), limit) == Some(v)
    ensures Kstrtoul(Ascii("0X") + Hex(v, 4), limit) == Some(v)
  {
    hide Number, Hex, Kstrtoul;
    HexIsNumber(v, 4);
    HexIsAccepted(v, limit);
    assert Ascii("+") == [43] && Ascii("0x") == [48, 120] && Ascii("0X") == [48, 88];
    AfterPlus(Hex(v, 4), limit);
    AfterZeroX(Hex(v, 4), 120, limit);
    AfterZeroX(Hex(v, 4), 88, limit);
  }

  lemma AfterPlus(digits: bytes, limit: nat)
    requires AllDigits(digits)
    ensures Kstrtoul([43] + digits, limit) == Kstrtoul(digits, limit)
  {
    hide Number;
    assert ([43] + digits)[1..] == digits;
  }

  lemma AfterZeroX(digits: bytes, x: byte, limit: nat)
    requires AllDigits(digits) && x in {88, 120}
    ensures Kstrtoul([48, x] + digits, limit) == Kstrtoul(digits, limit)
  {
    hide Number;
    assert ([48, x] + digits)[2..] == digits;
  }

  lemma {:induction false} TrimEndBehind(c: byte, s: bytes)
    requires IsSpace(c)
    ensures TrimStart(TrimEnd([c] + s)) == TrimStart(TrimEnd(s))
    decreases |s|
  {
    var t := [c] + s;
    if s == [] {
      var none: bytes := [];
      assert t[..0] == none;
      assert TrimEnd(t) == none == TrimEnd(none);
    } else if IsSpace(s[|s| - 1]) {
      TrimEndBehind(c, s[..|s| - 1]);
      assert t[..|t| - 1] == [c] + s[..|s| - 1];
    } else {
      assert TrimEnd(t) == t && t[1..] == s;
    }
  }

  /** White space and separators before or behind a text change nothing. */
  lemma MarginsAreIgnored(c: byte, s: bytes, curves: nat, values: nat, limit: nat)
    requires c in {9, 10, 11, 12, 13, 32, 44, 59}
    ensures Parse([c] + s, curves, values, limit) == Parse(s, curves, values, limit)
    ensures 0 !in s ==> Parse(s + [c], curves, values, limit) == Parse(s, curves, values, limit)
  {
    hide Rows, Split, Strim, CString, Normalized, Separator;
    assert Separator(c) in {9, 10, 11, 12, 13, 32} by {
      SeparatorIsSpace(c);
    }
    FirstCharacter(c, s);
    StrimBehind(Separator(c), Normalized(CString(s)));
    if 0 !in s {
      LastCharacter(c, s);
      StrimBefore(Separator(c), Normalized(CString(s)));
    }
  }

  lemma SeparatorIsSpace(c: byte)
    requires c in {9, 10, 11, 12, 13, 32, 44, 59}
    ensures Separator(c) in {9, 10, 11, 12, 13, 32}
  {
  }

  lemma FirstCharacter(c: byte, s: bytes)
    requires c != 0
    ensures Normalized(CString([c] + s)) == [Separator(c)] + Normalized(CString(s))
  {
    hide Cut, Separator;
    var n := Cut(s, 0);
    NotBefore(s, 0, n);
    CutIs([c] + s, 0, n + 1);
    assert ([c] + s)[..n + 1] == [c] + s[..n];
  }

  lemma LastCharacter(c: byte, s: bytes)
    requires c != 0 && 0 !in s
    ensures Normalized(CString(s + [c])) == Normalized(CString(s)) + [Separator(c)]
  {
    hide Cut, Separator;
    CutIs(s, 0, |s|);
    CutIs(s + [c], 0, |s| + 1);
    assert (s + [c])[..|s| + 1] == s + [c] && s[..|s|] == s;
  }

  lemma StrimBehind(c: byte, s: bytes)
    requires IsSpace(c)
    ensures Strim([c] + s) == Strim(s)
  {
    TrimEndBehind(c, s);
  }

  lemma StrimBefore(c: byte, s: bytes)
    requires IsSpace(c)
    ensures Strim(s + [c]) == Strim(s)
  {
    assert (s + [c])[..|s|] == s;
  }

  /** A value below 2^16 takes four places, a larger one no leading zero. */
  lemma FourPlaces(v: nat)
    ensures v < 0x1_0000 ==> |PrintRow([v])| == 4
    ensures v >= 0x1_0000 ==> |PrintRow([v])| > 4 && PrintRow([v])[0] != 48
  {
    assert Hexes([v])[0] == Hex(v, 4);
    assert PrintRow([v]) == Hex(v, 4);
    if v < 0x1_0000 {
      Pow16Of4();
      HexLength(v, 4, 4);
    } else {
      LongHex(v, 4);
    }
  }

  /** A printed line, character by character: digits are lower case and padded with zeros. */
  lemma PrintedExample()
    ensures PrintRow([0xAB, 0, 0x12CDE]) == Ascii("00ab 0000 12cde")
  {
    hide Join, Hex;
    ExampleDigits();
    var row: seq<nat> := [0xAB, 0, 0x12CDE];
    assert Hexes(row) == [Hex(0xAB, 4), Hex(0, 4), Hex(0x12CDE, 4)];
    JoinThree(Hex(0xAB, 4), Hex(0, 4), Hex(0x12CDE, 4));
  }

  lemma ExampleDigits()
    ensures Hex(0xAB, 4) == [48, 48, 97, 98] && Hex(0, 4) == [48, 48, 48, 48]
    ensures Hex(0x12CDE, 4) == [49, 50, 99, 100, 101]
  {
    assert Hex(0, 2) == [48] + [48];
    assert Hex(0, 3) == Hex(0, 2) + [48] && Hex(0, 4) == Hex(0, 3) + [48];
    assert Hex(0xA, 3) == Hex(0, 2) + [97] && Hex(0xAB, 4) == Hex(0xA, 3) + [98];
    assert Hex(0x12, 1) == [49] + [50] && Hex(0x12C, 2) == Hex(0x12, 1) + [99];
    assert Hex(0x12CD, 3) == Hex(0x12C, 2) + [100] && Hex(0x12CDE, 4) == Hex(0x12CD, 3) + [101];
  }

  lemma JoinThree(a: bytes, b: bytes, c: bytes)
    ensures Join([a, b, c], SPACE) == a + [SPACE] + (b + [SPACE] + c)
  {
    assert [a, b, c][1..] == [b, c] && [b, c][1..] == [c];
    assert Join([c], SPACE) == c && Join([b, c], SPACE) == b + [SPACE] + c;
  }

  lemma Pow16Of4()
    ensures Pow16(4) == 0x1_0000
  {
    assert Pow16(2) == 256;
    assert Pow16(4) == 16 * (16 * Pow16(2));
  }

  lemma {:induction false} Pow16Large(n: nat)
    ensures Pow16(n) >= if n == 0 then 1 else 16
    decreases n
  {
    if n > 0 {
      Pow16Large(n - 1);
    }
  }

  lemma {:induction false} LongHex(v: nat, width: nat)
    requires v >= Pow16(width) && v > 0
    ensures |Hex(v, width)| > width && Hex(v, width)[0] != 48
    decreases v, width
  {
    Pow16Large(width);
    if v >= 16 {
      var w := if width == 0 then 0 else width - 1;
      assert v / 16 >= Pow16(w);
      LongHex(v / 16, w);
    }
  }

  /** One space stands between two values of a line, and each line ends in a newline. */
  lemma LayoutByNumber(a: seq<nat>, b: seq<nat>)
    requires a != [] && b != []
    ensures PrintRow(a + b) == PrintRow(a) + [32] + PrintRow(b)
    ensures Print([a, b]) == PrintRow(a) + [10] + PrintRow(b) + [10]
  {
    JoinTwo(Hexes(a), Hexes(b));
    assert Hexes(a + b) == Hexes(a) + Hexes(b);
    hide PrintRow;
    var rows := [a, b];
    var none: seq<seq<nat>> := [];
    assert rows[1..] == [b] && rows[1..][1..] == none;
    assert Print([b]) == PrintRow(b) + [NEWLINE] + Print(none) == PrintRow(b) + [NEWLINE];
    Associate(PrintRow(a) + [10], PrintRow(b), [10]);
  }

  lemma {:induction false} JoinTwo(a: seq<bytes>, b: seq<bytes>)
    requires a != [] && b != []
    ensures Join(a + b, SPACE) == Join(a, SPACE) + [SPACE] + Join(b, SPACE)
    decreases |a|
  {
    assert (a + b)[1..] == a[1..] + b;
    if |a| == 1 {
      assert (a + b)[1..] == b;
    } else {
      JoinTwo(a[1..], b);
      Associate(a[0] + [SPACE], Join(a[1..], SPACE) + [SPACE], Join(b, SPACE));
      Associate(a[0] + [SPACE], Join(a[1..], SPACE), [SPACE]);
    }
  }

  // ---------------------------------------------------------------- the printer as it is written

  /** Each value followed by a space. */
  function Spaced(row: seq<nat>): bytes
  {
    if row == [] then [] else Hex(row[0], 4) + [SPACE] + Spaced(row[1..])
  }

  lemma {:induction false} SpacedIsRow(row: seq<nat>)
    requires row != []
    ensures Spaced(row) == PrintRow(row) + [SPACE]
    decreases |row|
  {
    hide Hex;
    if |row| == 1 {
      assert Spaced(row[1..]) == [];
    } else {
      SpacedIsRow(row[1..]);
      assert Hexes(row)[1..] == Hexes(row[1..]);
      Associate(Hex(row[0], 4) + [SPACE], PrintRow(row[1..]), [SPACE]);
    }
  }

  const MAX_VALUES_TOTAL: nat := 128

  /**
   * Prints the curves into a page. Each value takes at most sixteen digits and a space,
   * so the at most 128 values the driver allows fit.
   */
  method SprintfGamma(curves: array<nat>, numCurves: nat, numValues: nat, buf: array<byte>) returns (len: nat)
    requires 0 < numValues && numCurves * numValues <= MAX_VALUES_TOTAL
    requires curves.Length == numCurves * numValues
    requires forall i :: 0 <= i < curves.Length ==> curves[i] < Pow16(16)
    requires buf.Length >= PAGE_SIZE
    modifies buf
    ensures len < PAGE_SIZE
    ensures Full(Matrix(curves[..], numCurves, numValues))
    ensures buf[..len] == Print(Matrix(curves[..], numCurves, numValues))
  {
    hide Print, Matrix, PrintRow, Pow16;
    ghost var values := curves[..];
    len := 0;
    var i, base: nat := 0, 0;
    MatrixFull(values, numCurves, numValues);
    PrintStart(values, numCurves, numValues);
    while i < numCurves
      invariant i <= numCurves && base == i * numValues && base <= |values|
      invariant curves[..] == values
      invariant len <= 17 * base
      invariant PrintedTo(values, base, numCurves, numCurves - i, numValues, buf[..len])
      modifies buf
    {
      RoomLeft(numCurves, i, numValues);
      ghost var before := buf[..len];
      len := PrintCurve(curves, base, numValues, buf, len);
      PrintStep(values, base, numCurves, numCurves - i, numValues, before);
      i := i + 1;
      base := base + numValues;
    }
    PrintEnd(values, base, numCurves, numValues, buf[..len]);
  }

  /** One pass of the outer loop: the values of a curve, each followed by a space, and the last space made a newline. */
  method PrintCurve(curves: array<nat>, base: nat, numValues: nat, buf: array<byte>, from: nat) returns (len: nat)
    requires 0 < numValues && base + numValues <= curves.Length <= MAX_VALUES_TOTAL
    requires forall i :: 0 <= i < curves.Length ==> curves[i] < Pow16(16)
    requires from <= 17 * base && buf.Length >= PAGE_SIZE
    modifies buf
    ensures from <= len <= 17 * (base + numValues)
    ensures buf[..len] == old(buf[..from]) + PrintRow(curves[base..base + numValues]) + [NEWLINE]
  {
    hide Hex, PrintRow, Pow16, Spaced;
    ghost var row := curves[base..base + numValues];
    len := from;
    var j := 0;
    SpacedStart(row, buf[..from]);
    while j < numValues
      invariant 0 <= j <= numValues && from <= len <= 17 * (base + j)
      invariant curves[base..base + numValues] == row
      invariant buf[..len] + Spaced(row[j..]) == old(buf[..from]) + Spaced(row)
      modifies buf
    {
      var v := curves[base + j];
      HexLength(v, 4, 16);
      SpacedStep(row, j, buf[..len]);
      len := Put(buf, len, Hex(v, 4) + [SPACE]);
      j := j + 1;
    }
    SpacedEnd(row, j, buf[..len]);
    SpacedIsRow(row);
    LastReplaced(buf[..len], old(buf[..from]), PrintRow(row));
    ghost var full := buf[..len];
    buf[len - 1] := NEWLINE;
    assert buf[..len] == full[len - 1 := NEWLINE];
  }

  /** Formatted output at an offset, with the terminator that the next output overwrites. */
  method Put(buf: array<byte>, from: nat, text: bytes) returns (len: nat)
    requires from + |text| < buf.Length
    modifies buf
    ensures len == from + |text| && buf[..len] == old(buf[..from]) + text
  {
    forall k | 0 <= k < |text| {
      buf[from + k] := text[k];
    }
    len := from + |text|;
    buf[len] := 0;
  }

  lemma SpacedStart(row: seq<nat>, text: bytes)
    ensures text + Spaced(row[0..]) == text + Spaced(row)
  {
  }

  lemma SpacedStep(row: seq<nat>, j: nat, text: bytes)
    requires j < |row|
    ensures (text + (Hex(row[j], 4) + [SPACE])) + Spaced(row[j + 1..]) == text + Spaced(row[j..])
  {
  }

  lemma SpacedEnd(row: seq<nat>, j: nat, text: bytes)
    requires j == |row|
    ensures text + Spaced(row[j..]) == text
  {
  }

  lemma LastReplaced(text: bytes, front: bytes, line: bytes)
    requires text == front + (line + [SPACE])
    ensures |text| > 0 && text[|text| - 1 := NEWLINE] == front + line + [NEWLINE]
  {
  }

  lemma MatrixFull(values: seq<nat>, count: nat, width: nat)
    requires |values| == count * width && width > 0
    ensures Full(Matrix(values, count, width))
  {
  }

  /** What has been printed, and then what the curves from `base` on print, is what all curves print. */
  ghost predicate PrintedTo(values: seq<nat>, base: nat, count: nat, left: nat, width: nat, text: bytes)
  {
    && base <= |values| && width > 0
    && |values| == count * width && |values| - base == left * width
    && Full(Matrix(values, count, width)) && Full(Matrix(values[base..], left, width))
    && text + Print(Matrix(values[base..], left, width)) == Print(Matrix(values, count, width))
  }

  lemma PrintStart(values: seq<nat>, count: nat, width: nat)
    requires |values| == count * width && width > 0
    ensures PrintedTo(values, 0, count, count, width, [])
  {
  }

  lemma PrintStep(values: seq<nat>, base: nat, count: nat, left: nat, width: nat, text: bytes)
    requires left > 0 && PrintedTo(values, base, count, left, width, text)
    ensures base + width <= |values|
    ensures PrintedTo(values, base + width, count, left - 1, width,
                      text + PrintRow(values[base..base + width]) + [NEWLINE])
  {
    hide Matrix, Print, PrintRow;
    OneMore(left - 1, width);
    var rest := values[base..];
    assert rest[width..] == values[base + width..];
    assert rest[..width] == values[base..base + width];
    FirstRow(rest, left, width);
    var row := PrintRow(values[base..base + width]) + [NEWLINE];
    Associate(text, row, Print(Matrix(values[base + width..], left - 1, width)));
    Associate(text, PrintRow(values[base..base + width]), [NEWLINE]);
  }

  lemma FirstRow(values: seq<nat>, count: nat, width: nat)
    requires count > 0 && |values| == count * width && width > 0
    ensures width <= |values| && |values[width..]| == (count - 1) * width
    ensures Full(Matrix(values, count, width)) && Full(Matrix(values[width..], count - 1, width))
    ensures Print(Matrix(values, count, width)) ==
            PrintRow(values[..width]) + [NEWLINE] + Print(Matrix(values[width..], count - 1, width))
  {
  }

  lemma PrintEnd(values: seq<nat>, base: nat, count: nat, width: nat, text: bytes)
    requires PrintedTo(values, base, count, 0, width, text)
    ensures text == Print(Matrix(values, count, width))
  {
  }
}
