/** String helpers shared by the whole model: ASCII upper-casing, decimal
    rendering of numbers, searching, trimming, splitting and joining. */
module Text {

  // ---------------------------------------------------------------------------
  // Upper-casing (ASCII letters only; see README "Left out")
  // ---------------------------------------------------------------------------

  function UpperChar(c: char): (r: char)
    ensures 'a' <= c <= 'z' ==> r as int == c as int - 32
    ensures !('a' <= c <= 'z') ==> r == c
  {
    if 'a' <= c <= 'z' then (c as int - 32) as char else c
  }

  /** The upper-case form of a string, character by character. */
  function Upper(s: string): (r: string)
    ensures |r| == |s|
    ensures forall i :: 0 <= i < |s| ==> r[i] == UpperChar(s[i])
  {
    if s == [] then [] else [UpperChar(s[0])] + Upper(s[1..])
  }

  predicate IsUpper(s: string) {
    forall i :: 0 <= i < |s| ==> !('a' <= s[i] <= 'z')
  }

  lemma UpperIsUpper(s: string)
    ensures IsUpper(Upper(s))
  {
  }

  /** Upper-casing twice is upper-casing once. */
  lemma UpperIdempotent(s: string)
    ensures Upper(Upper(s)) == Upper(s)
  {
    var u := Upper(s);
    assert forall i :: 0 <= i < |u| ==> UpperChar(u[i]) == u[i];
  }

  lemma UpperAppend(a: string, b: string)
    ensures Upper(a + b) == Upper(a) + Upper(b)
  {
    assert forall i :: 0 <= i < |a + b| ==> Upper(a + b)[i] == (Upper(a) + Upper(b))[i];
  }

  // ---------------------------------------------------------------------------
  // Decimal numbers
  // ---------------------------------------------------------------------------

  predicate IsDigit(c: char) { '0' <= c <= '9' }

  predicate AllDigits(s: string) {
    forall i :: 0 <= i < |s| ==> IsDigit(s[i])
  }

  function DigitChar(d: nat): (c: char)
    requires d < 10
    ensures IsDigit(c)
  {
    ('0' as int + d) as char
  }

  /** Decimal text of a natural number, without leading zeros. */
  function NatToString(n: nat): (s: string)
    ensures |s| > 0 && AllDigits(s)
    ensures n >= 10 ==> s[0] != '0'
    decreases n
  {
    if n < 10 then [DigitChar(n)] else NatToString(n / 10) + [DigitChar(n % 10)]
  }

  function DigitValue(c: char): (d: nat)
    requires IsDigit(c)
    ensures d < 10
  {
    c as int - '0' as int
  }

  /** The value of a string of decimal digits (Java's Integer.valueOf on
      such a string, without the 32-bit bound). */
  function ParseNat(s: string): nat
    requires AllDigits(s)
  {
    if s == [] then 0 else ParseNat(s[..|s| - 1]) * 10 + DigitValue(s[|s| - 1])
  }

  lemma {:induction false} ParseNatToString(n: nat)
    ensures ParseNat(NatToString(n)) == n
    decreases n
  {
    if n >= 10 {
      var s := NatToString(n);
      assert s[..|s| - 1] == NatToString(n / 10);
      ParseNatToString(n / 10);
    }
  }

  /** Signed decimal text, as Java's Long.toString. */
  function IntToString(n: int): (s: string)
    ensures |s| > 0
  {
    if n < 0 then "-" + NatToString(-n) else NatToString(n)
  }

  // ---------------------------------------------------------------------------
  // Searching
  // ---------------------------------------------------------------------------

  /** Java's String.indexOf(char): the first position of c, or -1. */
  function IndexOf(s: string, c: char): (k: int)
    ensures -1 <= k < |s|
    ensures k == -1 <==> c !in s
    ensures k >= 0 ==> s[k] == c && c !in s[..k]
  {
    if s == [] then -1
    else if s[0] == c then 0
    else
      var k := IndexOf(s[1..], c);
      if k < 0 then -1 else (assert s[..k + 1] == [s[0]] + s[1..][..k]; k + 1)
  }

  /** Java's String.lastIndexOf(char): the last position of c, or -1. */
  function LastIndexOf(s: string, c: char): (k: int)
    ensures -1 <= k < |s|
    ensures k == -1 <==> c !in s
    ensures k >= 0 ==> s[k] == c && c !in s[k + 1..]
  {
    if s == [] then -1
    else if s[|s| - 1] == c then |s| - 1
    else (assert s == s[..|s| - 1] + [s[|s| - 1]]; LastIndexOf(s[..|s| - 1], c))
  }

  function Count(s: string, c: char): (n: nat)
    ensures n == 0 <==> c !in s
  {
    if s == [] then 0 else (if s[0] == c then 1 else 0) + Count(s[1..], c)
  }

  lemma {:induction false} CountAppend(a: string, b: string, c: char)
    ensures Count(a + b, c) == Count(a, c) + Count(b, c)
  {
    if a != [] {
      assert (a + b)[1..] == a[1..] + b;
      CountAppend(a[1..], b, c);
    } else {
      assert a + b == b;
    }
  }

  predicate EndsWith(s: string, t: string) {
    |t| <= |s| && s[|s| - |t|..] == t
  }

  // ---------------------------------------------------------------------------
  // Trimming (Java's String.trim: strips characters <= ' ' at both ends)
  // ---------------------------------------------------------------------------

  predicate IsBlank(c: char) { c <= ' ' }

  function TrimStart(s: string): (r: string)
    ensures |r| <= |s|
    ensures r == [] || !IsBlank(r[0])
    ensures forall i :: 0 <= i < |s| - |r| ==> IsBlank(s[i])
  {
    if s != [] && IsBlank(s[0]) then TrimStart(s[1..]) else s
  }

  /** What TrimStart leaves is a suffix of the text. */
  lemma {:induction false} TrimStartSuffix(s: string)
    ensures TrimStart(s) == s[|s| - |TrimStart(s)|..]
    decreases |s|
  {
    if s != [] && IsBlank(s[0]) {
      TrimStartSuffix(s[1..]);
    }
  }

  function TrimEnd(s: string): (r: string)
    ensures |r| <= |s|
    ensures forall i :: 0 <= i < |r| ==> r[i] == s[i]
    ensures r == [] || !IsBlank(r[|r| - 1])
    ensures forall i :: |r| <= i < |s| ==> IsBlank(s[i])
  {
    if s != [] && IsBlank(s[|s| - 1]) then TrimEnd(s[..|s| - 1]) else s
  }

  /** What TrimEnd leaves is a prefix of the text. */
  lemma TrimEndPrefix(s: string)
    ensures TrimEnd(s) == s[..|TrimEnd(s)|]
  {
  }

  function Trim(s: string): (r: string)
    ensures r == [] || (!IsBlank(r[0]) && !IsBlank(r[|r| - 1]))
  {
    TrimEnd(TrimStart(s))
  }

  /** Blanks around a word do not change its trimmed form. */
  lemma TrimPadded(pad1: string, w: string, pad2: string)
    requires forall i :: 0 <= i < |pad1| ==> IsBlank(pad1[i])
    requires forall i :: 0 <= i < |pad2| ==> IsBlank(pad2[i])
    requires w != [] && !IsBlank(w[0]) && !IsBlank(w[|w| - 1])
    ensures Trim(pad1 + w + pad2) == w
  {
    assert pad1 + w + pad2 == pad1 + (w + pad2);
    TrimStartPadded(pad1, w + pad2);
    TrimEndPadded(w, pad2);
  }

  lemma {:induction false} TrimStartPadded(pad: string, w: string)
    requires forall i :: 0 <= i < |pad| ==> IsBlank(pad[i])
    requires w == [] || !IsBlank(w[0])
    ensures TrimStart(pad + w) == w
  {
    if pad == [] {
      assert pad + w == w;
    } else {
      assert (pad + w)[1..] == pad[1..] + w;
      TrimStartPadded(pad[1..], w);
    }
  }

  lemma {:induction false} TrimEndPadded(w: string, pad: string)
    requires forall i :: 0 <= i < |pad| ==> IsBlank(pad[i])
    requires w == [] || !IsBlank(w[|w| - 1])
    ensures TrimEnd(w + pad) == w
  {
    if pad == [] {
      assert w + pad == w;
    } else {
      assert (w + pad)[..|w + pad| - 1] == w + pad[..|pad| - 1];
      TrimEndPadded(w, pad[..|pad| - 1]);
    }
  }

  /** Trimming the start of a text followed by a word starting with a
      non-blank trims only the text. */
  lemma {:induction false} TrimStartAppend(a: string, b: string)
    requires b != [] && !IsBlank(b[0])
    ensures TrimStart(a + b) == TrimStart(a) + b
  {
    if a == [] {
      assert a + b == b;
    } else if IsBlank(a[0]) {
      assert (a + b)[1..] == a[1..] + b;
      TrimStartAppend(a[1..], b);
    }
  }

  /** A word with no blank at either end is its own trimmed form. */
  lemma TrimWord(w: string)
    requires w != [] && !IsBlank(w[0]) && !IsBlank(w[|w| - 1])
    ensures Trim(w) == w
  {
    TrimStartPadded([], w);
    assert [] + w == w;
  }

  /** Trimming keeps only characters of the text. */
  lemma TrimKeepsOut(s: string, c: char)
    requires c !in s
    ensures c !in Trim(s)
  {
    var t := TrimStart(s);
    TrimStartSuffix(s);
    assert Trim(s) == t[..|Trim(s)|];
  }

  lemma TrimStartIdempotent(s: string)
    ensures TrimStart(TrimStart(s)) == TrimStart(s)
  {
  }

  // ---------------------------------------------------------------------------
  // Splitting and joining on a separator character
  // ---------------------------------------------------------------------------

  /** All pieces between separators, empty pieces included. */
  function Split(s: string, sep: char): (parts: seq<string>)
    ensures |parts| > 0
    ensures forall i :: 0 <= i < |parts| ==> sep !in parts[i]
    decreases |s|
  {
    var k := IndexOf(s, sep);
    if k < 0 then [s] else [s[..k]] + Split(s[k + 1..], sep)
  }

  function Join(parts: seq<string>, sep: string): (s: string)
  {
    if parts == [] then ""
    else if |parts| == 1 then parts[0]
    else parts[0] + sep + Join(parts[1..], sep)
  }

  /** Splitting undoes joining when no piece holds the separator. */
  lemma {:induction false} SplitJoin(parts: seq<string>, sep: char)
    requires |parts| > 0
    requires forall i :: 0 <= i < |parts| ==> sep !in parts[i]
    ensures Split(Join(parts, [sep]), sep) == parts
  {
    if |parts| == 1 {
      assert IndexOf(parts[0], sep) == -1;
    } else {
      var rest := Join(parts[1..], [sep]);
      assert Split(Join(parts, [sep]), sep) == [parts[0]] + Split(rest, sep) by {
        SplitFirst(parts[0], rest, sep);
      }
      assert Split(rest, sep) == parts[1..] by {
        SplitJoin(parts[1..], sep);
      }
      assert [parts[0]] + parts[1..] == parts;
    }
  }

  lemma {:induction false} IndexOfPrefix(a: string, b: string, c: char)
    requires c !in a
    requires b != [] && b[0] == c
    ensures IndexOf(a + b, c) == |a|
  {
    if a == [] {
      assert a + b == b;
    } else {
      assert (a + b)[1..] == a[1..] + b;
      IndexOfPrefix(a[1..], b, c);
    }
  }

  lemma {:induction false} JoinAppend(a: seq<string>, b: seq<string>, sep: string)
    requires a != [] && b != []
    ensures Join(a + b, sep) == Join(a, sep) + sep + Join(b, sep)
  {
    if |a| == 1 {
      assert (a + b)[1..] == b;
    } else {
      assert (a + b)[1..] == a[1..] + b;
      JoinAppend(a[1..], b, sep);
    }
  }

  lemma {:induction false} CountJoin(parts: seq<string>, sep: char, c: char)
    requires sep != c
    ensures Count(Join(parts, [sep]), c) == CountAll(parts, c)
  {
    if |parts| > 1 {
      CountAppend(parts[0], [sep], c);
      CountAppend(parts[0] + [sep], Join(parts[1..], [sep]), c);
      CountJoin(parts[1..], sep, c);
    }
  }

  function CountAll(parts: seq<string>, c: char): nat {
    if parts == [] then 0 else Count(parts[0], c) + CountAll(parts[1..], c)
  }

  // ---------------------------------------------------------------------------
  // Java's String.split on one character
  // ---------------------------------------------------------------------------

  /** The pieces without the empty ones at the end. */
  function DropTrailingEmpty(ps: seq<string>): (r: seq<string>)
    ensures |r| <= |ps|
    ensures forall i :: 0 <= i < |r| ==> r[i] == ps[i]
    ensures r == [] || r[|r| - 1] != []
    ensures forall i :: |r| <= i < |ps| ==> ps[i] == []
  {
    if ps != [] && ps[|ps| - 1] == [] then DropTrailingEmpty(ps[..|ps| - 1]) else ps
  }

  /** What DropTrailingEmpty leaves is a prefix of the pieces. */
  lemma DropTrailingEmptyPrefix(ps: seq<string>)
    ensures DropTrailingEmpty(ps) == ps[..|DropTrailingEmpty(ps)|]
  {
  }

  /** String.split(c): a text without c is its own only piece; otherwise the
      pieces between the c's, with trailing empty pieces removed. */
  function JavaSplit(s: string, c: char): seq<string> {
    if c !in s then [s] else DropTrailingEmpty(Split(s, c))
  }

  lemma {:induction false} DropTrailingEmptyCons(a: string, ps: seq<string>)
    requires a != []
    ensures DropTrailingEmpty([a] + ps) == [a] + DropTrailingEmpty(ps)
    decreases |ps|
  {
    var xs := [a] + ps;
    if ps != [] && ps[|ps| - 1] == [] {
      var init := ps[..|ps| - 1];
      assert xs[|xs| - 1] == [];
      assert DropTrailingEmpty(xs) == DropTrailingEmpty(xs[..|xs| - 1]);
      assert xs[..|xs| - 1] == [a] + init;
      assert DropTrailingEmpty(ps) == DropTrailingEmpty(init);
      DropTrailingEmptyCons(a, init);
    } else {
      assert xs[|xs| - 1] != [];
      assert DropTrailingEmpty(xs) == xs;
      assert DropTrailingEmpty(ps) == ps;
    }
  }

  lemma DropTrailingEmptyLast(ps: seq<string>)
    requires ps != [] && ps[|ps| - 1] == []
    ensures DropTrailingEmpty(ps) == DropTrailingEmpty(ps[..|ps| - 1])
    ensures |DropTrailingEmpty(ps)| < |ps|
  {
  }

  lemma {:induction false} IndexOfAppend(s: string, t: string, c: char)
    requires c in s
    ensures IndexOf(s + t, c) == IndexOf(s, c)
  {
    if s[0] != c {
      assert (s + t)[1..] == s[1..] + t;
      IndexOfAppend(s[1..], t, c);
    }
  }

  /** A leading piece without c splits off as the first piece. */
  lemma SplitFirst(a: string, b: string, c: char)
    requires c !in a
    ensures Split(a + [c] + b, c) == [a] + Split(b, c)
  {
    var s := a + [c] + b;
    assert s == a + ([c] + b);
    IndexOfPrefix(a, [c] + b, c);
    assert s[..|a|] == a;
    assert s[|a| + 1..] == b;
  }

  /** A text without c is one piece, and with c appended two. */
  lemma SplitAlone(s: string, c: char)
    requires c !in s
    ensures Split(s, c) == [s]
    ensures Split(s + [c], c) == [s, []]
  {
    assert Split(s + [c] + [], c) == [s] + Split([], c) by {
      SplitFirst(s, [], c);
    }
    AppendNil(s + [c]);
    assert Split([], c) == [[]];
  }

  lemma AppendNil<T>(s: seq<T>)
    ensures s + [] == s
  {
  }

  lemma EmptyAppend<T>(s: seq<T>)
    ensures [] + s == s
  {
  }

  lemma SplitAt(s: string, c: char)
    requires c in s
    ensures Split(s, c) == [s[..IndexOf(s, c)]] + Split(s[IndexOf(s, c) + 1..], c)
  {
  }

  /** A separator at the end adds one empty piece. */
  lemma {:induction false} SplitAppendSep(s: string, c: char)
    ensures Split(s + [c], c) == Split(s, c) + [[]]
    decreases |s|, 1
  {
    if c !in s {
      SplitAlone(s, c);
    } else {
      SplitAppendSepStep(s, c);
    }
  }

  lemma {:induction false} SplitAppendSepStep(s: string, c: char)
    requires c in s
    ensures Split(s + [c], c) == Split(s, c) + [[]]
    decreases |s|, 0
  {
    var k := IndexOf(s, c);
    var a := s[..k];
    var b := s[k + 1..];
    var e: string := [];
    assert Split(s, c) == [a] + Split(b, c) by {
      assert s == a + [c] + b;
      SplitFirst(a, b, c);
    }
    assert Split(s + [c], c) == [a] + Split(b + [c], c) by {
      assert s + [c] == a + [c] + (b + [c]);
      SplitFirst(a, b + [c], c);
    }
    SplitAppendSep(b, c);
    ConsSnoc(a, Split(b, c), Split(b + [c], c), Split(s, c), e);
  }


  /** Joining the pieces gives the text back. */
  lemma {:induction false} JoinSplit(s: string, c: char)
    ensures Join(Split(s, c), [c]) == s
    decreases |s|
  {
    var k := IndexOf(s, c);
    if k >= 0 {
      var rest := s[k + 1..];
      JoinSplit(rest, c);
      assert s == s[..k] + [c] + rest;
    }
  }

  /** There is one piece more than there are separators. */
  lemma {:induction false} SplitCount(s: string, c: char)
    ensures |Split(s, c)| == Count(s, c) + 1
    decreases |s|
  {
    var k := IndexOf(s, c);
    if k >= 0 {
      var rest := s[k + 1..];
      SplitCount(rest, c);
      CountSplitAt(s, k, c);
      assert s[k..][1..] == rest;
    }
  }

  lemma CountSplitAt(s: string, k: nat, c: char)
    requires k <= |s|
    ensures Count(s, c) == Count(s[..k], c) + Count(s[k..], c)
  {
    assert s == s[..k] + s[k..];
    CountAppend(s[..k], s[k..], c);
  }

  /** The last piece is empty exactly when the text is empty or ends with c. */
  lemma {:induction false} SplitLast(s: string, c: char)
    ensures var ps := Split(s, c); ps[|ps| - 1] == [] <==> (s == [] || s[|s| - 1] == c)
    decreases |s|, 1
  {
    var k := IndexOf(s, c);
    if k >= 0 {
      SplitAround(s, k);
      SplitLastFirst(s[..k], s[k + 1..], c);
      LastOfDrop(s, k + 1);
    }
  }

  lemma {:induction false} SplitLastFirst(a: string, b: string, c: char)
    requires c !in a
    ensures var ps := Split(a + [c] + b, c); ps[|ps| - 1] == [] <==> (b == [] || b[|b| - 1] == c)
    decreases |a| + 1 + |b|, 0
  {
    var ps := Split(b, c);
    SplitFirst(a, b, c);
    LastOfCons(a, ps);
    SplitLast(b, c);
  }

  /** A join of pieces without c holds one c per gap. */
  lemma {:induction false} CountJoinSep(ps: seq<string>, c: char)
    requires ps != []
    requires forall i :: 0 <= i < |ps| ==> c !in ps[i]
    ensures Count(Join(ps, [c]), c) == |ps| - 1
  {
    if |ps| > 1 {
      CountJoinSep(ps[1..], c);
      CountAppend(ps[0], [c], c);
      CountAppend(ps[0] + [c], Join(ps[1..], [c]), c);
    }
  }

  /** String.split(c) on a text whose first c is not its first character:
      the text before that c, then the pieces of the rest. */
  lemma JavaSplitAtFirst(s: string, c: char)
    requires c in s
    ensures IndexOf(s, c) >= 1 ==>
      JavaSplit(s, c) == [s[..IndexOf(s, c)]] + DropTrailingEmpty(Split(s[IndexOf(s, c) + 1..], c))
    ensures IndexOf(s, c) == 0 ==> JavaSplit(s, c) == [] || JavaSplit(s, c)[0] == []
  {
    var k := IndexOf(s, c);
    SplitAround(s, k);
    JavaSplitFirst(s[..k], s[k + 1..], c);
  }

  /** The same on a text given as the piece before its first c, that c and
      the rest. */
  lemma JavaSplitFirst(a: string, b: string, c: char)
    requires c !in a
    ensures a != [] ==> JavaSplit(a + [c] + b, c) == [a] + DropTrailingEmpty(Split(b, c))
    ensures a == [] ==> JavaSplit(a + [c] + b, c) == [] || JavaSplit(a + [c] + b, c)[0] == []
  {
    var s := a + [c] + b;
    assert s[|a|] == c;
    var ps := Split(b, c);
    assert Split(s, c) == [a] + ps by {
      SplitFirst(a, b, c);
    }
    if a != [] {
      DropTrailingEmptyCons(a, ps);
    } else {
      var r := DropTrailingEmpty([a] + ps);
      assert r != [] ==> r[0] == a;
    }
  }

  /** The first c is one of the c's: the rest of the text holds the others. */
  lemma CountAtFirst(s: string, c: char)
    requires c in s
    ensures Count(s, c) == Count(s[IndexOf(s, c) + 1..], c) + 1
  {
    var k := IndexOf(s, c);
    SplitAround(s, k);
    CountFirst(s[..k], s[k + 1..], c);
  }

  /** A text is what comes before its k-th character, that character and
      what comes after. */
  lemma SplitAround(s: string, k: nat)
    requires k < |s|
    ensures s == s[..k] + [s[k]] + s[k + 1..]
  {
  }

  lemma CountFirst(a: string, b: string, c: char)
    requires c !in a
    ensures Count(a + [c] + b, c) == Count(b, c) + 1
  {
    assert a + [c] + b == a + ([c] + b);
    CountAppend(a, [c] + b, c);
    CountAppend([c], b, c);
    assert [c][1..] == [];
  }

  /** Rejoining what String.split(c) kept never has more c's than the text,
      and has fewer when the text ends with c. */
  lemma JoinDropCount(s: string, c: char)
    ensures Count(Join(DropTrailingEmpty(Split(s, c)), [c]), c) <= Count(s, c)
    ensures s != [] && s[|s| - 1] == c ==> Count(Join(DropTrailingEmpty(Split(s, c)), [c]), c) < Count(s, c)
  {
    var ps := Split(s, c);
    var t := DropTrailingEmpty(ps);
    SplitCount(s, c);
    if t != [] {
      forall i | 0 <= i < |t| ensures c !in t[i] {
        assert t[i] == ps[i];
      }
      CountJoinSep(t, c);
    }
    if s != [] && s[|s| - 1] == c {
      SplitLast(s, c);
      DropTrailingEmptyLast(ps);
    }
  }

  /** Rejoining what String.split(c) kept gives back a text that does not
      end with c. */
  lemma JoinDropSplit(s: string, c: char)
    requires s == [] || s[|s| - 1] != c
    ensures Join(DropTrailingEmpty(Split(s, c)), [c]) == s
  {
    if s == [] {
      assert Split(s, c) == [[]];
    } else {
      KeepAllPieces(s, c);
      JoinSplit(s, c);
    }
  }

  /** ... and a text ending in exactly one c without that c. */
  lemma JoinDropSplitSep(s: string, c: char)
    requires s != [] && s[|s| - 1] == c && (|s| < 2 || s[|s| - 2] != c)
    ensures Join(DropTrailingEmpty(Split(s, c)), [c]) == s[..|s| - 1]
  {
    var s' := s[..|s| - 1];
    assert s == s' + [c];
    SplitAppendSep(s', c);
    var ps := Split(s', c);
    assert Split(s, c)[..|Split(s, c)| - 1] == ps;
    DropTrailingEmptyLast(Split(s, c));
    JoinDropSplit(s', c);
  }

  /** A text that does not end with c loses no piece to String.split. */
  lemma KeepAllPieces(s: string, c: char)
    requires s != [] && s[|s| - 1] != c
    ensures DropTrailingEmpty(Split(s, c)) == Split(s, c)
  {
    SplitLast(s, c);
  }

  lemma {:induction false} CountDropLast(s: string, c: char)
    requires s != []
    ensures Count(s[..|s| - 1], c) <= Count(s, c)
  {
    assert s == s[..|s| - 1] + [s[|s| - 1]];
    CountAppend(s[..|s| - 1], [s[|s| - 1]], c);
  }

  // ---------------------------------------------------------------------------
  // Sequences: consing an element and appending one associate
  // ---------------------------------------------------------------------------

  lemma ConsSnoc<T>(x: T, ps: seq<T>, qs: seq<T>, a: seq<T>, e: T)
    requires a == [x] + ps && qs == ps + [e]
    ensures [x] + qs == a + [e]
  {
  }

  lemma InitLast<T>(s: seq<T>)
    requires s != []
    ensures s == s[..|s| - 1] + [s[|s| - 1]]
  {
  }

  lemma TakeStep<T>(s: seq<T>, i: nat)
    requires i < |s|
    ensures s[..i + 1][..i] == s[..i]
    ensures s[..i + 1] == s[..i] + [s[i]]
  {
  }

  lemma TakeAll<T>(s: seq<T>)
    ensures s[..|s|] == s
  {
  }

  lemma InitOfSnoc<T>(s: seq<T>, x: T)
    ensures (s + [x])[..|s|] == s
    ensures (s + [x])[|s|] == x
  {
  }

  lemma AppendAssoc<T>(a: seq<T>, b: seq<T>, c: seq<T>)
    ensures a + (b + c) == a + b + c
  {
  }

  lemma LastOfCons<T>(x: T, xs: seq<T>)
    requires xs != []
    ensures ([x] + xs)[|xs|] == xs[|xs| - 1]
  {
  }

  lemma LastOfDrop<T>(s: seq<T>, k: nat)
    requires k <= |s|
    ensures s[k..] != [] ==> s[k..][|s[k..]| - 1] == s[|s| - 1]
  {
  }

  lemma SnocAfterCons<T>(xs: seq<T>, e: T)
    requires xs != []
    ensures [xs[0]] + (xs[1..] + [e]) == xs + [e]
  {
  }
}
