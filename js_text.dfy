/** The JavaScript string built-ins the extraction code relies on, with the
    semantics ECMAScript gives them: `trim`, the `\s` class, `includes`,
    `indexOf`, `split`/`join` on a string separator, `parseInt` on a run of
    decimal digits, and `String(n)` for a natural number. */
module JsText {
  import opened Wrappers

  // ---------------------------------------------------------------------
  // Whitespace and trim
  // ---------------------------------------------------------------------

  /** The characters `trim` removes and the regular-expression class `\s`
      matches: WhiteSpace (TAB, VT, FF, ZWNBSP and every Zs space) and
      LineTerminator (LF, CR, LS, PS). */
  predicate IsWhitespace(c: char) {
    || c == '\t' || c == '\n' || c == '\U{0B}' || c == '\U{0C}' || c == '\r'
    || c == ' ' || c == '\U{A0}' || c == '\U{1680}'
    || ('\U{2000}' <= c <= '\U{200A}')
    || c == '\U{2028}' || c == '\U{2029}' || c == '\U{202F}' || c == '\U{205F}'
    || c == '\U{3000}' || c == '\U{FEFF}'
  }

  predicate AllWhitespace(s: string) {
    forall k :: 0 <= k < |s| ==> IsWhitespace(s[k])
  }

  /** Drops the leading whitespace: what is left is a suffix of `s` that does
      not start with whitespace, and everything dropped was whitespace. */
  function TrimStart(s: string): (r: string)
    ensures |r| <= |s| && r == s[|s| - |r|..]
    ensures AllWhitespace(s[..|s| - |r|])
    ensures r == [] || !IsWhitespace(r[0])
    decreases |s|
  {
    if |s| > 0 && IsWhitespace(s[0]) then TrimStart(s[1..]) else s
  }

  /** Drops the trailing whitespace: what is left is a prefix of `s` that does
      not end with whitespace, and everything dropped was whitespace. */
  function TrimEnd(s: string): (r: string)
    ensures |r| <= |s| && r == s[..|r|]
    ensures AllWhitespace(s[|r|..])
    ensures r == [] || !IsWhitespace(r[|r| - 1])
    decreases |s|
  {
    if |s| > 0 && IsWhitespace(s[|s| - 1]) then
      var r := TrimEnd(s[..|s| - 1]);
      assert s[|r|..] == s[..|s| - 1][|r|..] + [s[|s| - 1]];
      r
    else s
  }

  /** `s.trim()` */
  function Trim(s: string): (r: string)
    ensures |r| <= |s|
    ensures r == [] || (!IsWhitespace(r[0]) && !IsWhitespace(r[|r| - 1]))
  {
    TrimEnd(TrimStart(s))
  }

  /** A string is trimmed when it neither starts nor ends with whitespace. */
  predicate IsTrimmed(t: string) {
    t == [] || (!IsWhitespace(t[0]) && !IsWhitespace(t[|t| - 1]))
  }

  lemma {:induction false} TrimStartPadded(w: string, u: string)
    requires AllWhitespace(w)
    requires u == [] || !IsWhitespace(u[0])
    ensures TrimStart(w + u) == u
    decreases |w|
  {
    if w != [] {
      assert (w + u)[0] == w[0];
      assert (w + u)[1..] == w[1..] + u;
      TrimStartPadded(w[1..], u);
    }
  }

  lemma {:induction false} TrimEndPadded(u: string, w: string)
    requires AllWhitespace(w)
    requires u == [] || !IsWhitespace(u[|u| - 1])
    ensures TrimEnd(u + w) == u
    decreases |w|
  {
    if w != [] {
      var s := u + w;
      assert s[|s| - 1] == w[|w| - 1];
      assert s[..|s| - 1] == u + w[..|w| - 1];
      TrimEndPadded(u, w[..|w| - 1]);
    }
  }

  /** `trim` removes exactly the surrounding whitespace: a trimmed text
      padded with whitespace on either side trims back to itself. */
  lemma {:induction false} TrimPadded(w1: string, t: string, w2: string)
    requires AllWhitespace(w1) && AllWhitespace(w2) && IsTrimmed(t)
    ensures Trim(w1 + t + w2) == t
  {
    if t == [] {
      assert w1 + t + w2 == w1 + w2 + [];
      TrimStartPadded(w1 + w2, []);
      TrimEndPadded([], []);
    } else {
      assert w1 + t + w2 == w1 + (t + w2);
      assert (t + w2)[0] == t[0];
      TrimStartPadded(w1, t + w2);
      TrimEndPadded(t, w2);
    }
  }

  /** Only a blank text trims to "". */
  lemma {:induction false} TrimBlank(s: string)
    ensures Trim(s) == [] <==> AllWhitespace(s)
  {
    var u := TrimStart(s);
    var k := |s| - |u|;
    if TrimEnd(u) == [] {
      assert u[0..] == u;
      assert s == s[..k] + u;
      forall i | 0 <= i < |s| ensures IsWhitespace(s[i]) {
        assert s[i] == (s[..k] + u)[i];
      }
    } else {
      assert s[k] == u[0];
    }
  }

  /** `trim` is idempotent. */
  lemma {:induction false} TrimIdempotent(s: string)
    ensures Trim(Trim(s)) == Trim(s)
  {
    var t := Trim(s);
    assert t == [] + t + [];
    TrimPadded([], t, []);
  }

  // ---------------------------------------------------------------------
  // Decimal digits, parseInt and String(n)
  // ---------------------------------------------------------------------

  /** The ASCII digits, the class `[0-9]` and `\d` (without the `u` flag). */
  predicate IsDigit(c: char) {
    '0' <= c <= '9'
  }

  predicate AllDigits(s: string) {
    forall k :: 0 <= k < |s| ==> IsDigit(s[k])
  }

  predicate NoDigits(s: string) {
    forall k :: 0 <= k < |s| ==> !IsDigit(s[k])
  }

  function DigitValue(c: char): (d: nat)
    requires IsDigit(c)
    ensures d < 10
  {
    c as int - '0' as int
  }

  function DigitChar(d: nat): (c: char)
    requires d < 10
    ensures IsDigit(c) && DigitValue(c) == d
  {
    ('0' as int + d) as char
  }

  /** The value of a string of decimal digits, most significant digit first
      (leading zeros allowed, as `parseInt` allows them). */
  function DecimalValue(ds: string): nat
    requires AllDigits(ds)
    decreases |ds|
  {
    if ds == [] then 0 else 10 * DecimalValue(ds[..|ds| - 1]) + DigitValue(ds[|ds| - 1])
  }

  /** `parseInt(ds, 10)` on a string of ASCII digits; `NaN` is `None`. */
  function ParseInt(ds: string): (r: Option<nat>)
    requires AllDigits(ds)
    ensures r.None? <==> ds == []
  {
    if ds == [] then None else Some(DecimalValue(ds))
  }

  /** `String(n)` (or `${n}`) for a natural number below 10^21. */
  function NatToString(n: nat): (s: string)
    ensures s != [] && AllDigits(s)
    ensures |s| > 1 ==> s[0] != '0'
    decreases n
  {
    if n < 10 then [DigitChar(n)] else NatToString(n / 10) + [DigitChar(n % 10)]
  }

  /** Parsing the decimal rendering of a number gives the number back. */
  lemma {:induction false} NatToStringRoundTrip(n: nat)
    ensures DecimalValue(NatToString(n)) == n
    decreases n
  {
    var s := NatToString(n);
    if n < 10 {
      assert s[..|s| - 1] == [];
    } else {
      var p := NatToString(n / 10);
      assert s == p + [DigitChar(n % 10)];
      assert s[..|s| - 1] == p;
      NatToStringRoundTrip(n / 10);
    }
  }

  // ---------------------------------------------------------------------
  // Searching: indexOf, includes
  // ---------------------------------------------------------------------

  /** `sub` occurs in `s` at index `i`. */
  predicate OccursAt(s: string, sub: string, i: int) {
    0 <= i && i + |sub| <= |s| && s[i..i + |sub|] == sub
  }

  lemma {:induction false} OccursShift(s: string, sub: string)
    requires |s| > 0
    ensures forall j :: 1 <= j ==> (OccursAt(s, sub, j) <==> OccursAt(s[1..], sub, j - 1))
  {
    forall j | 1 <= j
      ensures OccursAt(s, sub, j) <==> OccursAt(s[1..], sub, j - 1)
    {
      if j + |sub| <= |s| {
        assert s[1..][j - 1..j - 1 + |sub|] == s[j..j + |sub|];
      }
    }
  }

  /** `s.indexOf(sub)`, with `-1` as `None`: the first index at which `sub`
      occurs. */
  function IndexOf(s: string, sub: string): (r: Option<nat>)
    ensures r.Some? ==> OccursAt(s, sub, r.value)
    ensures r.Some? ==> forall j :: 0 <= j < r.value ==> !OccursAt(s, sub, j)
    ensures r.None? ==> forall j :: 0 <= j <= |s| ==> !OccursAt(s, sub, j)
    decreases |s|
  {
    if |s| < |sub| then None
    else if s[..|sub|] == sub then Some(0)
    else
      OccursShift(s, sub);
      assert !OccursAt(s, sub, 0) by { assert s[0..|sub|] == s[..|sub|]; }
      match IndexOf(s[1..], sub)
      case None => None
      case Some(i) => Some(i + 1)
  }

  /** Where `sub` occurs, each of its characters is in place. */
  lemma {:induction false} OccursAtChar(s: string, sub: string, k: int)
    requires 0 <= k < |sub|
    ensures forall j :: OccursAt(s, sub, j) ==> s[j + k] == sub[k]
  {
    forall j | OccursAt(s, sub, j)
      ensures s[j + k] == sub[k]
    {
      assert s[j..j + |sub|][k] == s[j + k];
    }
  }

  /** A first occurrence is the one `IndexOf` reports. */
  lemma {:induction false} IndexOfUnique(s: string, sub: string, i: nat)
    requires OccursAt(s, sub, i)
    requires forall j :: 0 <= j < i ==> !OccursAt(s, sub, j)
    ensures IndexOf(s, sub) == Some(i)
  {
  }

  lemma {:induction false} OccursInPrefix(a: string, b: string, sub: string, j: int)
    requires 0 <= j && j + |sub| <= |a|
    ensures OccursAt(a + b, sub, j) <==> OccursAt(a, sub, j)
  {
    assert (a + b)[j..j + |sub|] == a[j..j + |sub|];
  }

  /** Appending text does not move a first occurrence. */
  lemma {:induction false} FirstOccurrenceExtends(a: string, b: string, sub: string, i: nat)
    requires IndexOf(a, sub) == Some(i)
    ensures IndexOf(a + b, sub) == Some(i)
  {
    OccursInPrefix(a, b, sub, i);
    forall j | 0 <= j < i
      ensures !OccursAt(a + b, sub, j)
    {
      OccursInPrefix(a, b, sub, j);
    }
    IndexOfUnique(a + b, sub, i);
  }

  /** `s.includes(sub)` */
  function Includes(s: string, sub: string): (b: bool)
    ensures b <==> exists j :: 0 <= j <= |s| && OccursAt(s, sub, j)
  {
    IndexOf(s, sub).Some?
  }

  // ---------------------------------------------------------------------
  // split and join
  // ---------------------------------------------------------------------

  /** `parts.join(sep)` */
  function Join(parts: seq<string>, sep: string): (s: string)
    decreases |parts|
  {
    if |parts| == 0 then ""
    else if |parts| == 1 then parts[0]
    else parts[0] + sep + Join(parts[1..], sep)
  }

  /** `s.split(sep)` for a non-empty separator: the pieces between the
      non-overlapping occurrences of `sep`, found left to right. No piece
      contains the separator. */
  function Split(s: string, sep: string): (parts: seq<string>)
    requires sep != []
    ensures |parts| >= 1
    ensures forall k :: 0 <= k < |parts| ==> !Includes(parts[k], sep)
    decreases |s|
  {
    match IndexOf(s, sep)
    case None => [s]
    case Some(i) =>
      var head, rest := s[..i], Split(s[i + |sep|..], sep);
      assert s == head + sep + s[i + |sep|..];
      assert !Includes(head, sep) by {
        forall j | 0 <= j <= |head|
          ensures !OccursAt(head, sep, j)
        {
          if j + |sep| <= |head| {
            OccursInPrefix(head, s[i..], sep, j);
            assert head + s[i..] == s;
          }
        }
      }
      assert ([head] + rest)[1..] == rest;
      [head] + rest
  }

  /** The split is leftmost: the first piece is what precedes the first
      occurrence of the separator, and without one the text stays whole. */
  lemma {:induction false} SplitFirstPiece(s: string, sep: string)
    requires sep != []
    ensures IndexOf(s, sep).None? ==> Split(s, sep) == [s]
    ensures IndexOf(s, sep).Some? ==>
              |Split(s, sep)| >= 2 && Split(s, sep)[0] == s[..IndexOf(s, sep).value]
  {
    if IndexOf(s, sep).Some? {
      SplitUnfold(s, sep, IndexOf(s, sep).value);
    }
  }

  /** Joining the pieces with the separator gives the text back. */
  lemma {:induction false} SplitRejoins(s: string, sep: string)
    requires sep != []
    ensures Join(Split(s, sep), sep) == s
    decreases |s|
  {
    match IndexOf(s, sep)
    case None =>
    case Some(i) =>
      var rest := s[i + |sep|..];
      SplitRejoins(rest, sep);
      SplitUnfold(s, sep, i);
      var parts := Split(s, sep);
      assert parts[1..] == Split(rest, sep);
      assert s == s[..i] + sep + rest;
  }

  /** `p` can stand in front of `sep` in a joined text without the split
      seeing an earlier separator: the first occurrence of `sep` in
      `p + sep` is the appended one. (It fails when `p` contains `sep`, or
      ends with a part of it that `sep` completes.) */
  predicate EndsCleanlyBefore(p: string, sep: string) {
    IndexOf(p + sep, sep) == Some(|p|)
  }

  /** A text without the character `c` ends cleanly before the separator `[c]`. */
  lemma {:induction false} CharFreeEndsCleanly(p: string, c: char)
    requires c !in p
    ensures EndsCleanlyBefore(p, [c])
  {
    var s := p + [c];
    assert OccursAt(s, [c], |p|) by { assert s[|p|..|p| + 1] == [c]; }
    forall j | 0 <= j < |p|
      ensures !OccursAt(s, [c], j)
    {
      assert s[j..j + 1][0] == s[j] == p[j];
    }
    IndexOfUnique(s, [c], |p|);
  }

  /** A piece that ends cleanly before the separator is split off whole. */
  lemma {:induction false} SplitAfterFirst(a: string, sep: string, t: string)
    requires sep != []
    requires EndsCleanlyBefore(a, sep)
    ensures Split(a + sep + t, sep) == [a] + Split(t, sep)
  {
    FirstOccurrenceExtends(a + sep, t, sep, |a|);
    var s := a + sep + t;
    assert s[..|a|] == a;
    assert s[|a| + |sep|..] == t;
  }

  lemma {:induction false} CleanPieceHasNoSeparator(p: string, sep: string)
    requires sep != [] && EndsCleanlyBefore(p, sep)
    ensures !Includes(p, sep)
  {
    forall j | 0 <= j <= |p|
      ensures !OccursAt(p, sep, j)
    {
      if j + |sep| <= |p| {
        OccursInPrefix(p, sep, sep, j);
      }
    }
  }

  /** Three pieces free of `c`, joined by `c`, split back apart. */
  lemma {:induction false} SplitThreePieces(a: string, b: string, q: string, c: char)
    requires c !in a && c !in b && c !in q
    ensures Split(a + [c] + (b + [c] + q), [c]) == [a, b, q]
  {
    OneCharAbsent(q, c);
    NoSeparatorNoSecondField(q, [c]);
    SplitOffCharFree(b, c, q);
    SplitOffCharFree(a, c, b + [c] + q);
  }

  /** A piece free of `c`, followed by `c`, is split off whole. */
  lemma {:induction false} SplitOffCharFree(a: string, c: char, t: string)
    requires c !in a
    ensures Split(a + [c] + t, [c]) == [a] + Split(t, [c])
  {
    CharFreeEndsCleanly(a, c);
    SplitAfterFirst(a, [c], t);
  }

  /** Two pieces free of `c`, each followed by `c`, are the first two
      pieces of the split, whatever comes after them. */
  lemma {:induction false} SplitTwoPiecesThenRest(b: string, q: string, rest: string, c: char)
    requires c !in b && c !in q
    ensures |Split(b + [c] + (q + [c] + rest), [c])| >= 2
    ensures Split(b + [c] + (q + [c] + rest), [c])[0] == b
    ensures Split(b + [c] + (q + [c] + rest), [c])[1] == q
  {
    SplitOffCharFree(q, c, rest);
    SplitOffCharFree(b, c, q + [c] + rest);
  }

  /** Three pieces free of `c`, each followed by `c`, are the first three
      pieces of the split, whatever comes after them. */
  lemma {:induction false} SplitThreePiecesThenRest(a: string, b: string, q: string, rest: string, c: char)
    requires c !in a && c !in b && c !in q
    ensures |Split(a + [c] + (b + [c] + (q + [c] + rest)), [c])| >= 3
    ensures Split(a + [c] + (b + [c] + (q + [c] + rest)), [c])[2] == q
  {
    var t := b + [c] + (q + [c] + rest);
    SplitTwoPiecesThenRest(b, q, rest, c);
    SplitOffCharFree(a, c, t);
    assert Split(a + [c] + t, [c])[2] == Split(t, [c])[1];
  }

  /** Splitting a joined text gives back the pieces, in order, whenever each
      piece ends cleanly before the separator. */
  lemma {:induction false} JoinSplit(parts: seq<string>, sep: string)
    requires sep != [] && |parts| >= 1
    requires forall k :: 0 <= k < |parts| ==> EndsCleanlyBefore(parts[k], sep)
    ensures Split(Join(parts, sep), sep) == parts
    decreases |parts|
  {
    if |parts| == 1 {
      CleanPieceHasNoSeparator(parts[0], sep);
    } else {
      JoinSplit(parts[1..], sep);
      SplitAfterFirst(parts[0], sep, Join(parts[1..], sep));
      assert parts == [parts[0]] + parts[1..];
    }
  }

  /** `s.split(sep)[k]`, with `None` for `undefined` past the last piece. */
  function SplitField(s: string, sep: string, k: nat): (field: Option<string>)
    requires sep != []
    ensures field.Some? ==> !Includes(field.value, sep)
    ensures k == 0 ==> field.Some?
    ensures !Includes(s, sep) ==> (field.Some? <==> k == 0)
  {
    var parts := Split(s, sep);
    if k < |parts| then Some(parts[k]) else None
  }

  /** The piece after the first separator is what follows it up to the next
      one: when `t` holds no separator, `(a + sep + t).split(sep)[1] == t`. */
  lemma {:induction false} SecondFieldAfterFirst(a: string, sep: string, t: string)
    requires sep != []
    requires EndsCleanlyBefore(a, sep) && !Includes(t, sep)
    ensures SplitField(a + sep + t, sep, 1) == Some(t)
  {
    SplitAfterFirst(a, sep, t);
  }

  /** A text without the separator splits into itself alone. */
  lemma {:induction false} NoSeparatorNoSecondField(s: string, sep: string)
    requires sep != [] && !Includes(s, sep)
    ensures Split(s, sep) == [s]
    ensures SplitField(s, sep, 1) == None
  {
  }

  /** `s.split(sep).pop()` */
  function LastSegment(s: string, sep: string): (last: string)
    requires sep != []
  {
    var parts := Split(s, sep);
    parts[|parts| - 1]
  }

  /** Splitting at a first occurrence. */
  lemma {:induction false} SplitUnfold(s: string, sep: string, i: nat)
    requires sep != [] && IndexOf(s, sep) == Some(i)
    ensures Split(s, sep) == [s[..i]] + Split(s[i + |sep|..], sep)
  {
  }

  lemma {:induction false} OneCharAbsent(t: string, c: char)
    requires c !in t
    ensures !Includes(t, [c])
  {
    forall j | 0 <= j <= |t|
      ensures !OccursAt(t, [c], j)
    {
      if j + 1 <= |t| {
        assert t[j..j + 1] == [t[j]];
      }
    }
  }

  /** The last piece does not change when the text up to the first
      separator is cut off. */
  lemma {:induction false} LastSegmentStep(s: string, sep: string, i: nat)
    requires sep != [] && IndexOf(s, sep) == Some(i)
    ensures LastSegment(s, sep) == LastSegment(s[i + |sep|..], sep)
  {
    SplitUnfold(s, sep, i);
    LastOfCons(s[..i], Split(s[i + |sep|..], sep));
  }

  lemma {:induction false} LastOfCons(x: string, tail: seq<string>)
    requires |tail| >= 1
    ensures ([x] + tail)[|[x] + tail| - 1] == tail[|tail| - 1]
  {
  }

  /** With a one-character separator `c`, the last piece is whatever follows
      the last `c`. */
  lemma {:induction false} LastSegmentAfter(a: string, c: char, t: string)
    requires c !in t
    ensures LastSegment(a + [c] + t, [c]) == t
    decreases |a|
  {
    var sep := [c];
    var s := a + sep + t;
    OneCharAbsent(t, c);
    assert OccursAt(a + sep, sep, |a|);
    var i := IndexOf(a + sep, sep).value;
    assert i <= |a|;
    FirstOccurrenceExtends(a + sep, t, sep, i);
    LastSegmentStep(s, sep, i);
    if i == |a| {
      assert s[i + 1..] == t;
      NoSeparatorNoSecondField(t, sep);
    } else {
      assert s[i + 1..] == a[i + 1..] + sep + t;
      LastSegmentAfter(a[i + 1..], c, t);
    }
  }
}
