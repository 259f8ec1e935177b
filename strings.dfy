/** Text helpers with the meaning of the Go `strings` and `strconv` functions
    and of JavaScript's `String.prototype.trim` that the core calls. A string
    is a sequence of characters. Whitespace is the ASCII part of what Go's
    `unicode.IsSpace` and JavaScript's `trim` accept. */
module Strings {
  import opened Wrappers

  predicate IsSpace(c: char) {
    c == ' ' || c == '\t' || c == '\n' || c == '\r' || c == '\U{B}' || c == '\U{C}'
  }

  predicate NoSpace(s: string) {
    forall i :: 0 <= i < |s| ==> !IsSpace(s[i])
  }

  predicate AllSpace(s: string) {
    forall i :: 0 <= i < |s| ==> IsSpace(s[i])
  }

  /** Strips leading whitespace; what is removed is all whitespace. */
  function TrimStart(s: string): (r: string)
    ensures |r| <= |s| && r == s[|s| - |r|..]
    ensures r == [] || !IsSpace(r[0])
    ensures AllSpace(s[..|s| - |r|])
    decreases |s|
  {
    if |s| > 0 && IsSpace(s[0]) then
      var r := TrimStart(s[1..]);
      assert s[..|s| - |r|] == [s[0]] + s[1..][..|s| - 1 - |r|];
      r
    else s
  }

  /** Strips trailing whitespace; what is removed is all whitespace. */
  function TrimEnd(s: string): (r: string)
    ensures |r| <= |s| && r == s[..|r|]
    ensures r == [] || !IsSpace(r[|r| - 1])
    ensures AllSpace(s[|r|..])
    decreases |s|
  {
    if |s| > 0 && IsSpace(s[|s| - 1]) then
      var init := s[..|s| - 1];
      var r := TrimEnd(init);
      assert r == s[..|r|] by {
        assert init[..|r|] == s[..|r|];
      }
      assert AllSpace(s[|r|..]) by {
        assert s[|r|..] == init[|r|..] + [s[|s| - 1]];
      }
      r
    else
      assert s[|s|..] == [];
      s
  }

  /** `strings.TrimSpace` and `String.prototype.trim`: the result starts and
      ends with a non-space, and it is empty exactly when `s` is all
      whitespace. */
  function Trim(s: string): (r: string)
    ensures |r| <= |s|
    ensures r == [] || (!IsSpace(r[0]) && !IsSpace(r[|r| - 1]))
    ensures r == [] <==> AllSpace(s)
  {
    var t := TrimStart(s);
    var r := TrimEnd(t);
    assert r == [] ==> AllSpace(s) by {
      if r == [] {
        assert t == [];
        assert s[..|s|] == s;
      }
    }
    r
  }

  /** Trimming twice is trimming once. */
  lemma TrimIdempotent(s: string)
    ensures Trim(Trim(s)) == Trim(s)
  {
    var r := Trim(s);
    if r != [] {
      TrimNoop(r);
    }
  }

  /** A string that starts and ends with a non-space trims to itself. */
  lemma TrimNoop(s: string)
    requires s != [] && !IsSpace(s[0]) && !IsSpace(s[|s| - 1])
    ensures Trim(s) == s && !AllSpace(s)
  {
    assert TrimStart(s) == s;
  }

  /** Trimming keeps a contiguous middle of `s` and removes only whitespace
      before and after it. */
  lemma TrimSlice(s: string)
    ensures exists i :: 0 <= i && i + |Trim(s)| <= |s| && Trim(s) == s[i..i + |Trim(s)|]
                        && AllSpace(s[..i]) && AllSpace(s[i + |Trim(s)|..])
  {
    TrimParts(s);
    SliceWithin(s, TrimStart(s), Trim(s));
  }

  /** `Trim` is `TrimEnd` after `TrimStart`, with what each keeps and drops. */
  lemma TrimParts(s: string)
    ensures var t := TrimStart(s);
            && |t| <= |s| && t == s[|s| - |t|..] && AllSpace(s[..|s| - |t|])
            && |Trim(s)| <= |t| && Trim(s) == t[..|Trim(s)|] && AllSpace(t[|Trim(s)|..])
  {
    assert Trim(s) == TrimEnd(TrimStart(s));
  }

  /** A prefix `r` of a suffix `t` of `s`, with whitespace cut off on both
      sides, is a slice of `s` between two runs of whitespace. */
  lemma SliceWithin(s: string, t: string, r: string)
    requires |t| <= |s| && t == s[|s| - |t|..] && AllSpace(s[..|s| - |t|])
    requires |r| <= |t| && r == t[..|r|] && AllSpace(t[|r|..])
    ensures exists i :: 0 <= i && i + |r| <= |s| && r == s[i..i + |r|]
                        && AllSpace(s[..i]) && AllSpace(s[i + |r|..])
  {
    var i := |s| - |t|;
    assert r == s[i..i + |r|];
    assert t[|r|..] == s[i + |r|..];
  }

  predicate HasPrefix(s: string, p: string) {
    |p| <= |s| && s[..|p|] == p
  }

  predicate HasSuffix(s: string, p: string) {
    |p| <= |s| && s[|s| - |p|..] == p
  }

  /** `strings.TrimPrefix`: removes one occurrence of `p` at the start. */
  function TrimPrefix(s: string, p: string): (r: string)
    ensures HasPrefix(s, p) ==> p + r == s
    ensures !HasPrefix(s, p) ==> r == s
  {
    if HasPrefix(s, p) then s[|p|..] else s
  }

  /** Glues `parts` together with `sep` between neighbours (`strings.Join`). */
  function JoinWith(parts: seq<string>, sep: string): string
    requires |parts| > 0
    decreases |parts|
  {
    if |parts| == 1 then parts[0] else parts[0] + sep + JoinWith(parts[1..], sep)
  }

  /** `strings.Split(s, string(c))`: the pieces between the occurrences of `c`,
      never empty, none holding `c`, and joining them back gives `s`. */
  function Split(s: string, c: char): (r: seq<string>)
    ensures |r| > 0
    ensures forall i :: 0 <= i < |r| ==> c !in r[i]
    ensures JoinWith(r, [c]) == s
    decreases |s|
  {
    if |s| == 0 then [""]
    else
      var rest := Split(s[1..], c);
      if s[0] == c then
        var r := [""] + rest;
        assert r[1..] == rest;
        r
      else
        var r := [[s[0]] + rest[0]] + rest[1..];
        assert |rest| > 1 ==> r[1..] == rest[1..];
        r
  }

  /** Splitting a joined sequence gives back the parts. */
  lemma {:induction false} SplitJoin(parts: seq<string>, c: char)
    requires |parts| > 0
    requires forall i :: 0 <= i < |parts| ==> c !in parts[i]
    ensures Split(JoinWith(parts, [c]), c) == parts
    decreases |parts|
  {
    if |parts| == 1 {
      SplitWithout(parts[0], c);
    } else {
      SplitJoin(parts[1..], c);
      SplitAfter(parts[0], c, JoinWith(parts[1..], [c]));
      assert parts == [parts[0]] + parts[1..];
    }
  }

  lemma {:induction false} SplitWithout(x: string, c: char)
    requires c !in x
    ensures Split(x, c) == [x]
    decreases |x|
  {
    if |x| > 0 {
      SplitWithout(x[1..], c);
      assert [x[0]] + x[1..] == x;
    }
  }

  lemma {:induction false} SplitAfter(x: string, c: char, y: string)
    requires c !in x
    ensures Split(x + [c] + y, c) == [x] + Split(y, c)
    decreases |x|
  {
    var s := x + [c] + y;
    if |x| == 0 {
      assert s[1..] == y;
    } else {
      assert s[1..] == x[1..] + [c] + y;
      SplitAfter(x[1..], c, y);
      assert [x[0]] + x[1..] == x;
    }
  }

  /** `sep` occurs in `s` at index `i`. */
  predicate OccursAt(s: string, sep: string, i: nat) {
    i + |sep| <= |s| && s[i..i + |sep|] == sep
  }

  lemma OccursShift(s: string, sep: string, j: nat)
    requires |s| > 0
    ensures OccursAt(s, sep, j + 1) <==> OccursAt(s[1..], sep, j)
  {
    if j + 1 + |sep| <= |s| {
      assert s[j + 1..j + 1 + |sep|] == s[1..][j..j + |sep|];
    }
  }

  /** `strings.Index`: the first occurrence of `sep` in `s`, if any. */
  function Find(s: string, sep: string): (r: Option<nat>)
    requires |sep| > 0
    ensures r.Some? ==> OccursAt(s, sep, r.value)
    ensures r.Some? ==> forall j: nat :: j < r.value ==> !OccursAt(s, sep, j)
    ensures r.None? ==> forall j: nat :: !OccursAt(s, sep, j)
    decreases |s|
  {
    if |s| < |sep| then None
    else if s[..|sep|] == sep then Some(0)
    else
      var rest := Find(s[1..], sep);
      assert forall j: nat :: OccursAt(s, sep, j + 1) <==> OccursAt(s[1..], sep, j) by {
        forall j: nat ensures OccursAt(s, sep, j + 1) <==> OccursAt(s[1..], sep, j) {
          OccursShift(s, sep, j);
        }
      }
      assert !OccursAt(s, sep, 0);
      match rest
      case None =>
        assert forall j: nat :: !OccursAt(s, sep, j) by {
          forall j: nat ensures !OccursAt(s, sep, j) {
            if j > 0 { assert !OccursAt(s[1..], sep, j - 1); }
          }
        }
        None
      case Some(i) =>
        assert forall j: nat :: j < i + 1 ==> !OccursAt(s, sep, j) by {
          forall j: nat | j < i + 1 ensures !OccursAt(s, sep, j) {
            if j > 0 { assert !OccursAt(s[1..], sep, j - 1); }
          }
        }
        Some(i + 1)
  }

  /** When the first character of `sep` does not occur in `x`, the first
      occurrence of `sep` in `x + sep + y` is right after `x`. */
  lemma FindAfter(x: string, sep: string, y: string)
    requires |sep| > 0 && sep[0] !in x
    ensures Find(x + sep + y, sep) == Some(|x|)
  {
    var s := x + sep + y;
    assert s[|x|..|x| + |sep|] == sep;
    assert OccursAt(s, sep, |x|);
    var r := Find(s, sep);
  }

  /** A separator whose first character does not occur is not found. */
  lemma FindAbsent(s: string, sep: string)
    requires |sep| > 0 && sep[0] !in s
    ensures Find(s, sep) == None
  {
  }

  /** `strings.SplitN(s, sep, n)` for `n > 0`: at most `n` pieces, the last
      holding the unsplit remainder; joining them with `sep` gives `s`. */
  function SplitN(s: string, sep: string, n: nat): (r: seq<string>)
    requires |sep| > 0 && n > 0
    ensures 0 < |r| <= n
    ensures JoinWith(r, sep) == s
    decreases n
  {
    if n == 1 then [s]
    else
      match Find(s, sep)
      case None => [s]
      case Some(i) =>
        var rest := SplitN(s[i + |sep|..], sep, n - 1);
        SplitNStep(s, sep, i, rest);
        [s[..i]] + rest
  }

  lemma SplitNStep(s: string, sep: string, i: nat, rest: seq<string>)
    requires OccursAt(s, sep, i) && |rest| > 0 && JoinWith(rest, sep) == s[i + |sep|..]
    ensures JoinWith([s[..i]] + rest, sep) == s
  {
    var r := [s[..i]] + rest;
    assert r[1..] == rest;
    assert s == s[..i] + s[i..i + |sep|] + s[i + |sep|..];
  }

  /** The text before the first occurrence of `sep`, followed by `sep`, has
      its first occurrence right after that text. */
  lemma FindFirstPiece(s: string, sep: string, i: nat)
    requires |sep| > 0 && OccursAt(s, sep, i) && forall j: nat :: j < i ==> !OccursAt(s, sep, j)
    ensures Find(s[..i] + sep, sep) == Some(i)
  {
    SameOccurrences(s, sep, i);
    FindIs(s[..i] + sep, sep, i);
  }

  /** Below `i`, the text before an occurrence of `sep` at `i`, followed by
      `sep`, has the same occurrences of `sep` as `s`. */
  lemma SameOccurrences(s: string, sep: string, i: nat)
    requires OccursAt(s, sep, i) && forall j: nat :: j < i ==> !OccursAt(s, sep, j)
    ensures var p := s[..i] + sep;
            OccursAt(p, sep, i) && forall j: nat :: j < i ==> !OccursAt(p, sep, j)
  {
    var p := s[..i] + sep;
    assert p == s[..i + |sep|];
    assert p[i..i + |sep|] == s[i..i + |sep|];
    forall j: nat | j < i ensures !OccursAt(p, sep, j) {
      assert !OccursAt(s, sep, j);
      assert p[j..j + |sep|] == s[j..j + |sep|];
    }
  }

  /** `Find` is characterised by its contract: an occurrence with none
      before it is the one found. */
  lemma FindIs(s: string, sep: string, i: nat)
    requires |sep| > 0 && OccursAt(s, sep, i) && forall j: nat :: j < i ==> !OccursAt(s, sep, j)
    ensures Find(s, sep) == Some(i)
  {
  }

  /** Pieces cut at first occurrences of `sep`: every piece but the last
      is followed by the first occurrence of `sep` in what was left, and
      when fewer than `n` pieces came out the last one holds no `sep`. */
  predicate CutAtFirst(r: seq<string>, sep: string, n: nat)
    requires |sep| > 0
  {
    && (forall k :: 0 <= k < |r| - 1 ==> Find(r[k] + sep, sep) == Some(|r[k]|))
    && (0 < |r| < n ==> Find(r[|r| - 1], sep) == None)
  }

  /** `strings.SplitN` cuts at the first occurrences of `sep`. With
      `JoinWith(SplitN(s, sep, n), sep) == s` this fixes the pieces. */
  lemma {:induction false} SplitNPieces(s: string, sep: string, n: nat)
    requires |sep| > 0 && n > 0
    ensures CutAtFirst(SplitN(s, sep, n), sep, n)
    decreases n
  {
    if n == 1 {
      SplitNPiecesOne(s, sep);
    } else {
      match Find(s, sep)
      case None =>
        SplitNPiecesUncut(s, sep, n);
      case Some(i) =>
        SplitNPieces(s[i + |sep|..], sep, n - 1);
        SplitNPiecesStep(s, sep, n, i);
    }
  }

  /** With one piece allowed, `SplitN` cuts nothing. */
  lemma SplitNPiecesOne(s: string, sep: string)
    requires |sep| > 0
    ensures CutAtFirst(SplitN(s, sep, 1), sep, 1)
  {
    assert SplitN(s, sep, 1) == [s];
  }

  /** Without an occurrence of `sep`, `SplitN` cuts nothing. */
  lemma SplitNPiecesUncut(s: string, sep: string, n: nat)
    requires |sep| > 0 && n > 1 && Find(s, sep) == None
    ensures CutAtFirst(SplitN(s, sep, n), sep, n)
  {
    assert SplitN(s, sep, n) == [s];
  }

  /** One cut of `SplitN`: the first piece is followed by the first
      occurrence of `sep`, and the rest was cut from what follows it. */
  lemma SplitNPiecesStep(s: string, sep: string, n: nat, i: nat)
    requires |sep| > 0 && n > 1 && Find(s, sep) == Some(i)
    requires CutAtFirst(SplitN(s[i + |sep|..], sep, n - 1), sep, n - 1)
    ensures CutAtFirst(SplitN(s, sep, n), sep, n)
  {
    var rest := SplitN(s[i + |sep|..], sep, n - 1);
    assert SplitN(s, sep, n) == [s[..i]] + rest;
    assert OccursAt(s, sep, i) && forall j: nat :: j < i ==> !OccursAt(s, sep, j);
    FindFirstPiece(s, sep, i);
    CutAtFirstCons(s[..i], rest, sep, n);
  }

  /** A piece followed by the first occurrence of `sep`, put in front of
      pieces cut at first occurrences, gives pieces cut at first
      occurrences with one more allowed. */
  lemma CutAtFirstCons(first: string, rest: seq<string>, sep: string, n: nat)
    requires |sep| > 0 && n > 0 && |rest| > 0
    requires Find(first + sep, sep) == Some(|first|)
    requires CutAtFirst(rest, sep, n - 1)
    ensures CutAtFirst([first] + rest, sep, n)
  {
    var r := [first] + rest;
    assert forall k :: 1 <= k < |r| ==> r[k] == rest[k - 1];
  }

  /** The longest prefix of `s` without whitespace. */
  function Word(s: string): (w: string)
    ensures |w| <= |s| && w == s[..|w|]
    ensures NoSpace(w)
    ensures |w| == |s| || IsSpace(s[|w|])
    ensures s != [] && !IsSpace(s[0]) ==> |w| > 0
    decreases |s|
  {
    if |s| == 0 || IsSpace(s[0]) then "" else [s[0]] + Word(s[1..])
  }

  /** `strings.Fields`: the maximal runs of non-whitespace characters of
      `s`, in order. */
  function Fields(s: string): seq<string>
    decreases |s|
  {
    var t := TrimStart(s);
    if t == [] then []
    else
      var w := Word(t);
      assert 0 < |w| <= |t| <= |s|;
      var rest := Fields(t[|w|..]);
      [w] + rest
  }

  /** Every field is a non-empty run without whitespace. */
  lemma {:induction false} FieldsAreWords(s: string)
    ensures forall f :: f in Fields(s) ==> f != [] && NoSpace(f)
    decreases |s|
  {
    var t := TrimStart(s);
    if t != [] {
      var w := Word(t);
      var rest := t[|w|..];
      assert w != [] && NoSpace(w);
      FieldsAreWords(rest);
      var r := Fields(s);
      assert r == [w] + Fields(rest);
      forall f | f in r
        ensures f != [] && NoSpace(f)
      {
        if f != w {
          assert f in Fields(rest);
        }
      }
    }
  }

  /** A whitespace-free word followed by whitespace is the first field. */
  lemma FieldsCons(x: string, y: string)
    requires x != [] && NoSpace(x)
    ensures Fields(x + " " + y) == [x] + Fields(y)
  {
    var s := x + " " + y;
    TrimStartNoop(s);
    WordOf(x, " " + y);
    assert x + (" " + y) == s;
    assert Word(s) == x;
    assert s[|x|..] == " " + y;
    assert Fields(s) == [x] + Fields(" " + y);
    FieldsSkipSpace(y);
  }

  lemma TrimStartNoop(s: string)
    requires s != [] && !IsSpace(s[0])
    ensures TrimStart(s) == s
  {
  }

  lemma FieldsSkipSpace(y: string)
    ensures Fields(" " + y) == Fields(y)
  {
    assert (" " + y)[1..] == y;
    assert TrimStart(" " + y) == TrimStart(y);
  }

  /** A whitespace-free non-empty string is its own only field. */
  lemma FieldsSingle(x: string)
    requires x != [] && NoSpace(x)
    ensures Fields(x) == [x]
  {
    assert TrimStart(x) == x;
    WordOf(x, "");
    assert x + "" == x;
    assert x[|x|..] == [];
  }

  lemma {:induction false} WordOf(x: string, y: string)
    requires NoSpace(x)
    requires y == [] || IsSpace(y[0])
    ensures Word(x + y) == x
    decreases |x|
  {
    if |x| > 0 {
      assert (x + y)[1..] == x[1..] + y;
      WordOf(x[1..], y);
      assert [x[0]] + x[1..] == x;
    }
  }

  predicate IsDigit(c: char) {
    '0' <= c <= '9'
  }

  predicate AllDigits(s: string) {
    forall i :: 0 <= i < |s| ==> IsDigit(s[i])
  }

  function DigitValue(c: char): nat
    requires IsDigit(c)
  {
    (c as int) - ('0' as int)
  }

  function DigitChar(d: nat): (c: char)
    requires d < 10
    ensures IsDigit(c) && DigitValue(c) == d
  {
    (d + '0' as int) as char
  }

  /** The value of a string of decimal digits, most significant first. */
  function DecimalValue(s: string): nat
    requires AllDigits(s)
    decreases |s|
  {
    if |s| == 0 then 0 else DecimalValue(s[..|s| - 1]) * 10 + DigitValue(s[|s| - 1])
  }

  /** `strconv.Itoa` on a non-negative value: its decimal digits. */
  function NatToString(n: nat): (r: string)
    ensures |r| > 0 && AllDigits(r)
    decreases n
  {
    if n < 10 then [DigitChar(n)] else NatToString(n / 10) + [DigitChar(n % 10)]
  }

  /** `strconv.Itoa`. */
  function IntToString(i: int): (r: string)
    ensures |r| > 0
    ensures i >= 0 <==> AllDigits(r)
  {
    if i < 0 then
      var r := "-" + NatToString(-i);
      assert !IsDigit(r[0]);
      r
    else NatToString(i)
  }

  const MinInt64: int := -0x8000_0000_0000_0000
  const MaxInt64: int := 0x7FFF_FFFF_FFFF_FFFF

  /** The saturation `strconv.ParseInt` applies to out-of-range values. */
  function ClampInt64(v: int): (r: int)
    ensures MinInt64 <= r <= MaxInt64
    ensures MinInt64 <= v <= MaxInt64 ==> r == v
  {
    if v < MinInt64 then MinInt64 else if v > MaxInt64 then MaxInt64 else v
  }

  const MaxUint64: int := 0xFFFF_FFFF_FFFF_FFFF

  /** The longest prefix of `s` made of decimal digits. */
  function DigitRun(s: string): (r: string)
    ensures |r| <= |s| && r == s[..|r|]
    ensures AllDigits(r)
    ensures |r| == |s| || !IsDigit(s[|r|])
    decreases |s|
  {
    if |s| == 0 || !IsDigit(s[0]) then "" else [s[0]] + DigitRun(s[1..])
  }

  /** `strconv.ParseUint` in base 10 as `strconv.Atoi` calls it, on the
      text after the sign: the value of the leading run of decimal digits, or
      none for a syntax error. The parse stops with a range error at the
      first digit that takes the value past 2^64 - 1, before it looks at any
      later character; so the run is read when it is all of the text or when
      its value exceeds 2^64 - 1. An empty text, or a non-digit after a run
      that fits, is a syntax error. The saturation of an overflowing value is
      left to `Atoi`'s clamp, which gives the same result. */
  function ParseUnsigned(t: string): (r: Option<nat>)
    ensures r.Some? ==> |t| > 0 && r.value == DecimalValue(DigitRun(t))
  {
    var run := DigitRun(t);
    if |t| > 0 && (|run| == |t| || DecimalValue(run) > MaxUint64) then Some(DecimalValue(run)) else None
  }

  /** `strconv.Atoi` with its error discarded, on a 64-bit platform: an
      optional sign, then the unsigned parse, whose value is negated after
      `-` and saturated to the 64-bit range; 0 on a syntax error. */
  function Atoi(s: string): (r: int)
    ensures MinInt64 <= r <= MaxInt64
  {
    var t := if |s| > 0 && (s[0] == '-' || s[0] == '+') then s[1..] else s;
    match ParseUnsigned(t)
    case None => 0
    case Some(v) => ClampInt64(if |s| > 0 && s[0] == '-' then -(v as int) else v)
  }

  lemma {:induction false} DecimalValueOfNatToString(n: nat)
    ensures DecimalValue(NatToString(n)) == n
    decreases n
  {
    if n >= 10 {
      var p := NatToString(n / 10);
      var r := p + [DigitChar(n % 10)];
      assert r[..|r| - 1] == p;
      DecimalValueOfNatToString(n / 10);
    }
  }

  /** `strconv.Atoi` inverts `strconv.Itoa` on the 64-bit range. */
  lemma AtoiOfIntToString(i: int)
    requires MinInt64 <= i <= MaxInt64
    ensures Atoi(IntToString(i)) == i
  {
    var x := if i < 0 then NatToString(-i) else NatToString(i);
    assert DigitRun(x) == x;
    assert ParseUnsigned(x) == Some(if i < 0 then -i else i) by {
      DecimalValueOfNatToString(if i < 0 then -i else i);
    }
    AtoiOfDigitStart(x);
  }

  /** Different numbers print differently. */
  lemma IntToStringInjective(i: int, j: int)
    requires MinInt64 <= i <= MaxInt64 && MinInt64 <= j <= MaxInt64
    requires IntToString(i) == IntToString(j)
    ensures i == j
  {
    AtoiOfIntToString(i);
    AtoiOfIntToString(j);
  }
  /** The digit run of a digit string followed by more text is that string
      followed by the digit run of the rest. */
  lemma {:induction false} DigitRunAppend(digits: string, rest: string)
    requires AllDigits(digits)
    ensures DigitRun(digits + rest) == digits + DigitRun(rest)
    decreases |digits|
  {
    if |digits| > 0 {
      var s := digits + rest;
      assert s[0] == digits[0] && s[1..] == digits[1..] + rest;
      DigitRunAppend(digits[1..], rest);
      assert DigitRun(s) == [digits[0]] + (digits[1..] + DigitRun(rest));
      assert [digits[0]] + digits[1..] == digits;
    } else {
      assert digits + rest == rest;
    }
  }

  /** Appending digits never lowers the value. */
  lemma {:induction false} DecimalValueGrows(digits: string, more: string)
    requires AllDigits(digits) && AllDigits(more)
    ensures AllDigits(digits + more) && DecimalValue(digits + more) >= DecimalValue(digits)
    decreases |more|
  {
    var s := digits + more;
    assert AllDigits(s) by {
      assert forall i :: 0 <= i < |s| ==> s[i] == (if i < |digits| then digits[i] else more[i - |digits|]);
    }
    if |more| > 0 {
      var init := more[..|more| - 1];
      assert s[..|s| - 1] == digits + init;
      DecimalValueGrows(digits, init);
    } else {
      assert s == digits;
    }
  }

  /** `strconv.Atoi` on text that opens with a digit, unsigned or after a
      minus sign, is the unsigned parse, signed and clamped. */
  lemma AtoiOfDigitStart(t: string)
    requires |t| > 0 && IsDigit(t[0])
    ensures Atoi(t) == (if ParseUnsigned(t).Some? then ClampInt64(ParseUnsigned(t).value) else 0)
    ensures Atoi("-" + t) == (if ParseUnsigned(t).Some? then ClampInt64(-(ParseUnsigned(t).value as int)) else 0)
  {
    assert ("-" + t)[1..] == t;
  }

  /** A run of digits whose value exceeds 2^64 - 1 saturates to the end of
      the 64-bit range its sign points to, whatever follows it. */
  lemma AtoiOverflowSaturates(n: nat, rest: string)
    requires n > MaxUint64
    ensures Atoi(NatToString(n) + rest) == MaxInt64
    ensures Atoi("-" + NatToString(n) + rest) == MinInt64
  {
    var t := NatToString(n) + rest;
    assert t[0] == NatToString(n)[0];
    assert ParseUnsigned(t).Some? && ParseUnsigned(t).value > MaxUint64 by {
      RunValueAtLeast(n, rest);
    }
    AtoiOfDigitStart(t);
    assert "-" + NatToString(n) + rest == "-" + t;
  }

  /** The digit run of a printed number followed by more text is worth at
      least the number. */
  lemma RunValueAtLeast(n: nat, rest: string)
    ensures DecimalValue(DigitRun(NatToString(n) + rest)) >= n
  {
    var x := NatToString(n);
    DecimalValueOfNatToString(n);
    DigitRunAppend(x, rest);
    DecimalValueGrows(x, DigitRun(rest));
  }

  /** A non-digit after a run of digits that fits in 64 bits makes the text
      unparsable, and it reads as 0. */
  lemma AtoiStopsAtNonDigit(n: nat, c: char, rest: string)
    requires n <= MaxUint64 && !IsDigit(c)
    ensures Atoi(NatToString(n) + [c] + rest) == 0
    ensures Atoi("-" + NatToString(n) + [c] + rest) == 0
  {
    var x := NatToString(n);
    var t := x + [c] + rest;
    assert t[0] == x[0];
    assert DigitRun(t) == x && DecimalValue(x) == n by {
      DecimalValueOfNatToString(n);
      assert t == x + ([c] + rest);
      DigitRunAppend(x, [c] + rest);
      assert DigitRun([c] + rest) == "";
    }
    assert ParseUnsigned(t) == None;
    AtoiOfDigitStart(t);
    assert "-" + x + [c] + rest == "-" + t;
  }
}
