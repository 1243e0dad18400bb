/**
 * String helpers shared by every module: ASCII whitespace trimming, substring search,
 * splitting and joining, decimal/hex rendering of naturals, ASCII case mapping and
 * word splitting. Strings are `seq<char>`; only the ASCII behaviour of the JavaScript
 * and Rust library functions is modelled.
 */
module Text {
  import opened Wrappers

  /** ASCII whitespace: space, tab, line feed, vertical tab, form feed, carriage return. */
  predicate IsSpace(c: char)
  {
    c == ' ' || '\t' <= c <= '\r'
  }

  predicate AllSpace(s: string)
  {
    forall i :: 0 <= i < |s| ==> IsSpace(s[i])
  }

  predicate NoSpace(s: string)
  {
    forall i :: 0 <= i < |s| ==> !IsSpace(s[i])
  }

  /** Neither the first nor the last character is whitespace. */
  predicate Trimmed(s: string)
  {
    |s| == 0 || (!IsSpace(s[0]) && !IsSpace(s[|s| - 1]))
  }

  function TrimStart(s: string): (r: string)
    ensures |r| <= |s| && r == s[|s| - |r|..]
    ensures forall i :: 0 <= i < |s| - |r| ==> IsSpace(s[i])
    ensures |r| > 0 ==> !IsSpace(r[0])
    decreases |s|
  {
    if |s| > 0 && IsSpace(s[0]) then TrimStart(s[1..]) else s
  }

  function TrimEnd(s: string): (r: string)
    ensures |r| <= |s| && r == s[..|r|]
    ensures forall i :: |r| <= i < |s| ==> IsSpace(s[i])
    ensures |r| > 0 ==> !IsSpace(r[|r| - 1])
    decreases |s|
  {
    if |s| > 0 && IsSpace(s[|s| - 1]) then TrimEnd(s[..|s| - 1]) else s
  }

  /** `str::trim` / `String.prototype.trim` restricted to ASCII whitespace. */
  function Trim(s: string): (r: string)
    ensures |r| <= |s|
    ensures Trimmed(r)
    ensures r == "" <==> AllSpace(s)
    ensures Trimmed(s) ==> r == s
  {
    var t := TrimStart(s);
    assert |t| > 0 ==> t[|t| - 1] == s[|s| - 1];
    TrimEnd(t)
  }

  lemma TrimIdempotent(s: string)
    ensures Trim(Trim(s)) == Trim(s)
  {
  }

  /** `pat` occurs in `s` starting at index `k`. */
  predicate OccursAt(s: string, pat: string, k: nat)
  {
    k + |pat| <= |s| && s[k..k + |pat|] == pat
  }

  predicate Contains(s: string, pat: string)
  {
    exists k: nat :: k <= |s| && OccursAt(s, pat, k)
  }

  /** The first occurrence of `pat` at or after `from`. */
  function FindFrom(s: string, pat: string, from: nat): (r: Option<nat>)
    requires from <= |s|
    ensures r.Some? ==> from <= r.value && OccursAt(s, pat, r.value)
    ensures forall k: nat :: from <= k && (r.None? || k < r.value) ==> !OccursAt(s, pat, k)
    decreases |s| - from
  {
    if OccursAt(s, pat, from) then Some(from)
    else if from == |s| then None
    else FindFrom(s, pat, from + 1)
  }

  /** The index of the first occurrence of `pat`, as `indexOf` / `str::find`. */
  function IndexOf(s: string, pat: string): (r: Option<nat>)
    ensures r.Some? <==> Contains(s, pat)
    ensures r.Some? ==> OccursAt(s, pat, r.value) && forall k: nat :: k < r.value ==> !OccursAt(s, pat, k)
  {
    FindFrom(s, pat, 0)
  }

  lemma OccursInPrefix(s: string, pat: string, i: nat, k: nat)
    requires i <= |s| && k + |pat| <= i
    ensures OccursAt(s[..i], pat, k) == OccursAt(s, pat, k)
  {
    assert s[..i][k..k + |pat|] == s[k..k + |pat|];
  }

  /** Nothing before the first occurrence contains the pattern. */
  lemma NoOccurrenceBeforeFirst(s: string, pat: string, i: nat)
    requires i <= |s| && |pat| > 0
    requires forall k: nat :: k < i ==> !OccursAt(s, pat, k)
    ensures !Contains(s[..i], pat)
  {
    if Contains(s[..i], pat) {
      var k: nat :| k <= i && OccursAt(s[..i], pat, k);
      OccursInPrefix(s, pat, i, k);
    }
  }

  /** `s.replace(pat, rep)` with a string pattern: only the first occurrence is replaced. */
  function ReplaceFirst(s: string, pat: string, rep: string): (r: string)
    ensures !Contains(s, pat) ==> r == s
    ensures Contains(s, pat) ==> |r| == |s| - |pat| + |rep|
  {
    match IndexOf(s, pat)
    case None => s
    case Some(i) => s[..i] + rep + s[i + |pat|..]
  }

  /** The replacement happens exactly at the first occurrence, wherever it is. */
  lemma ReplaceFirstAt(s: string, pat: string, rep: string, i: nat)
    requires OccursAt(s, pat, i)
    requires forall k: nat :: k < i ==> !OccursAt(s, pat, k)
    ensures ReplaceFirst(s, pat, rep) == s[..i] + rep + s[i + |pat|..]
  {
    var j := IndexOf(s, pat);
    assert j.Some?;
    assert !(j.value < i) && !(i < j.value);
  }

  /**
   * A bracketed marker (a `[` that opens it and nowhere else) that the text before it does
   * not contain is the first occurrence: `replace` removes exactly it.
   */
  lemma ReplaceFirstMarker(p: string, m: string, q: string)
    requires |m| > 0 && m[0] == '[' && forall j :: 0 < j < |m| ==> m[j] != '['
    requires !Contains(p, m)
    ensures ReplaceFirst(p + m + q, m, "") == p + q
  {
    var s := p + m + q;
    assert s[|p|..|p| + |m|] == m;
    forall k: nat | k < |p|
      ensures !OccursAt(s, m, k)
    {
      if k + |m| <= |p| {
        assert s[k..k + |m|] == p[k..k + |m|];
        assert !OccursAt(p, m, k);
      } else {
        assert s[k..k + |m|][|p| - k] == s[|p|] == '[' != m[|p| - k];
      }
    }
    ReplaceFirstAt(s, m, "", |p|);
    assert s[..|p|] == p && s[|p| + |m|..] == q;
  }

  /** Parts joined with a separator between consecutive ones. */
  function Join(parts: seq<string>, sep: string): (r: string)
    ensures |parts| == 1 ==> r == parts[0]
  {
    if |parts| == 0 then ""
    else if |parts| == 1 then parts[0]
    else parts[0] + sep + Join(parts[1..], sep)
  }

  /** `split(sep)` for a non-empty separator: every separator occurrence, left to right, cuts the string. */
  function Split(s: string, sep: string): (parts: seq<string>)
    requires |sep| > 0
    ensures |parts| >= 1
    ensures Join(parts, sep) == s
    ensures forall i :: 0 <= i < |parts| ==> !Contains(parts[i], sep)
    decreases |s|
  {
    match IndexOf(s, sep)
    case None => [s]
    case Some(i) =>
      NoOccurrenceBeforeFirst(s, sep, i);
      var rest := Split(s[i + |sep|..], sep);
      assert ([s[..i]] + rest)[1..] == rest;
      assert s == s[..i] + sep + s[i + |sep|..];
      [s[..i]] + rest
  }

  /** Splitting on a separator absent from the input yields the input alone. */
  lemma SplitAbsent(s: string, sep: string)
    requires |sep| > 0 && !Contains(s, sep)
    ensures Split(s, sep) == [s]
  {
  }

  /** The first occurrence, found wherever it is. */
  lemma IndexOfAt(s: string, pat: string, i: nat)
    requires OccursAt(s, pat, i)
    requires forall k: nat :: k < i ==> !OccursAt(s, pat, k)
    ensures IndexOf(s, pat) == Some(i)
  {
    var j := IndexOf(s, pat);
    assert j.Some?;
    assert !(j.value < i) && !(i < j.value);
  }

  /** Joining a non-empty tail puts exactly one separator after the head. */
  lemma JoinCons(head: string, tail: seq<string>, sep: string)
    requires |tail| > 0
    ensures Join([head] + tail, sep) == head + sep + Join(tail, sep)
  {
    assert ([head] + tail)[1..] == tail;
  }

  /** Splitting on a one-character separator after a separator-free head cuts exactly there. */
  lemma SplitCons(head: string, rest: string, sep: string)
    requires |sep| == 1 && !Contains(head, sep)
    ensures Split(head + sep + rest, sep) == [head] + Split(rest, sep)
  {
    var s := head + sep + rest;
    assert OccursAt(s, sep, |head|) by {
      assert s[|head|..|head| + 1] == sep;
    }
    forall k: nat | k < |head|
      ensures !OccursAt(s, sep, k)
    {
      assert !OccursAt(head, sep, k);
      assert s[k..k + 1] == head[k..k + 1];
    }
    IndexOfAt(s, sep, |head|);
    assert s[..|head|] == head && s[|head| + 1..] == rest;
  }

  /** A line with its terminating newline. */
  function Line(s: string): string
  {
    s + "\n"
  }

  /** Newline-terminated lines, one after the other. */
  function Lines(ls: seq<string>): string
  {
    if |ls| == 0 then "" else Line(ls[0]) + Lines(ls[1..])
  }

  lemma LinesCons(l: string, rest: seq<string>)
    ensures Lines([l] + rest) == Line(l) + Lines(rest)
  {
    assert ([l] + rest)[1..] == rest;
  }

  /** Splitting newline-terminated lines on newlines gives the lines back, then an empty tail. */
  lemma {:induction false} SplitLines(ls: seq<string>)
    requires forall i :: 0 <= i < |ls| ==> !Contains(ls[i], "\n")
    ensures Split(Lines(ls), "\n") == ls + [""]
    decreases |ls|
  {
    if |ls| == 0 {
      SplitAbsent("", "\n");
    } else {
      SplitLines(ls[1..]);
      SplitCons(ls[0], Lines(ls[1..]), "\n");
      ConsSnoc(ls, "");
    }
  }

  lemma ConsSnoc<T>(s: seq<T>, x: T)
    requires |s| > 0
    ensures s + [x] == [s[0]] + (s[1..] + [x])
  {
  }

  /** Every part followed by the separator, as a line-oriented tool prints records. */
  function Terminated(parts: seq<string>, sep: string): string
  {
    if |parts| == 0 then "" else parts[0] + sep + Terminated(parts[1..], sep)
  }

  /** Splitting separator-terminated parts gives the parts back, then an empty tail. */
  lemma {:induction false} SplitTerminated(parts: seq<string>, sep: string)
    requires |sep| == 1
    requires forall i :: 0 <= i < |parts| ==> !Contains(parts[i], sep)
    ensures Split(Terminated(parts, sep), sep) == parts + [""]
    decreases |parts|
  {
    if |parts| == 0 {
      SplitAbsent("", sep);
    } else {
      SplitTerminated(parts[1..], sep);
      SplitCons(parts[0], Terminated(parts[1..], sep), sep);
      ConsSnoc(parts, "");
    }
  }

  /** Splitting undoes joining on a one-character separator that no part contains. */
  lemma {:induction false} SplitOfJoin(parts: seq<string>, sep: string)
    requires |sep| == 1 && |parts| > 0
    requires forall i :: 0 <= i < |parts| ==> !Contains(parts[i], sep)
    ensures Split(Join(parts, sep), sep) == parts
    decreases |parts|
  {
    if |parts| == 1 {
      SplitAbsent(parts[0], sep);
    } else {
      SplitOfJoin(parts[1..], sep);
      SplitCons(parts[0], Join(parts[1..], sep), sep);
      assert parts == [parts[0]] + parts[1..];
    }
  }

  // ---------------------------------------------------------------- prefixes

  predicate StartsWith(s: string, p: string)
  {
    |p| <= |s| && s[..|p|] == p
  }

  predicate EndsWith(s: string, p: string)
  {
    |p| <= |s| && s[|s| - |p|..] == p
  }

  /** `str::strip_prefix`. */
  function StripPrefix(s: string, p: string): (r: Option<string>)
    ensures r.Some? <==> StartsWith(s, p)
    ensures r.Some? ==> p + r.value == s
  {
    if StartsWith(s, p) then Some(s[|p|..]) else None
  }

  // ---------------------------------------------------------------- numbers

  /** The value of a digit character in bases up to 16 (lower-case hex letters); 16 for anything else. */
  function DigitValue(c: char): nat
  {
    if '0' <= c <= '9' then c as nat - '0' as nat
    else if 'a' <= c <= 'f' then c as nat - 'a' as nat + 10
    else 16
  }

  function DigitChar(d: nat): (c: char)
    requires d < 16
    ensures DigitValue(c) == d
  {
    "0123456789abcdef"[d]
  }

  predicate AllDigits(s: string, base: nat)
  {
    forall i :: 0 <= i < |s| ==> DigitValue(s[i]) < base
  }

  /** The value of a digit string, most significant digit first. */
  function ValueOf(s: string, base: nat): nat
    requires AllDigits(s, base)
  {
    if |s| == 0 then 0 else ValueOf(s[..|s| - 1], base) * base + DigitValue(s[|s| - 1])
  }

  /** Positional rendering without leading zeros, as Rust's `{}` and `{:x}` and JavaScript's template strings print naturals. */
  function NatToBase(n: nat, base: nat): (r: string)
    requires 2 <= base <= 16
    ensures |r| >= 1 && AllDigits(r, base)
    ensures n > 0 ==> DigitValue(r[0]) > 0
    decreases n
  {
    if n < base then [DigitChar(n)]
    else
      DivStep(n, base);
      var p := NatToBase(n / base, base);
      var d := DigitChar(n % base);
      assert (p + [d])[0] == p[0];
      assert forall i :: 0 <= i < |p| ==> (p + [d])[i] == p[i];
      p + [d]
  }

  /** Reading the rendering back gives the number: `NatToBase` is a right inverse of `ValueOf`. */
  lemma {:induction false} NatToBaseValue(n: nat, base: nat)
    requires 2 <= base <= 16
    ensures ValueOf(NatToBase(n, base), base) == n
    decreases n
  {
    if n >= base {
      assert NatToBase(n, base) == NatToBase(n / base, base) + [DigitChar(n % base)];
      DivStep(n, base);
      NatToBaseValue(n / base, base);
      AppendDigit(NatToBase(n / base, base), DigitChar(n % base), base);
      EuclidStep(n, base, n / base, n % base);
    }
  }

  lemma DivStep(n: nat, base: nat)
    requires 2 <= base <= n
    ensures 0 < n / base < n && n % base < base
  {
  }

  lemma EuclidStep(n: nat, base: nat, q: nat, m: nat)
    requires base > 0 && q == n / base && m == n % base
    ensures q * base + m == n
  {
  }

  lemma AppendDigit(p: string, d: char, base: nat)
    requires AllDigits(p, base) && DigitValue(d) < base
    ensures AllDigits(p + [d], base)
    ensures ValueOf(p + [d], base) == ValueOf(p, base) * base + DigitValue(d)
  {
    assert (p + [d])[..|p|] == p;
  }

  function NatToString(n: nat): (r: string)
    ensures |r| >= 1
  {
    NatToBase(n, 10)
  }

  /** Reading a decimal rendering back gives the number. */
  lemma NatToStringValue(n: nat)
    ensures AllDigits(NatToString(n), 10) && ValueOf(NatToString(n), 10) == n
  {
    NatToBaseValue(n, 10);
  }

  /** Signed decimal rendering: a minus sign before the magnitude of a negative number. */
  function IntToString(n: int): (r: string)
    ensures n >= 0 ==> r == NatToString(n)
    ensures n < 0 ==> r == "-" + NatToString(-n)
  {
    if n >= 0 then NatToString(n) else "-" + NatToString(-n)
  }

  lemma NatToBaseInjective(a: nat, b: nat, base: nat)
    requires 2 <= base <= 16
    ensures NatToBase(a, base) == NatToBase(b, base) ==> a == b
  {
    NatToBaseValue(a, base);
    NatToBaseValue(b, base);
  }

  /** Decimal rendering never contains a dash, so a `-N` suffix can be recognised. */
  lemma NatToStringNoDash(n: nat)
    ensures '-' !in NatToString(n)
  {
  }

  // ---------------------------------------------------------------- case

  function LowerChar(c: char): char
  {
    if 'A' <= c <= 'Z' then (c as int + 32) as char else c
  }

  function UpperChar(c: char): char
  {
    if 'a' <= c <= 'z' then (c as int - 32) as char else c
  }

  /** `toLowerCase` / `to_lowercase`, ASCII letters only. */
  function Lower(s: string): (r: string)
    ensures |r| == |s|
    ensures forall i :: 0 <= i < |s| ==> r[i] == LowerChar(s[i])
    ensures forall i :: 0 <= i < |r| ==> !('A' <= r[i] <= 'Z')
  {
    seq(|s|, i requires 0 <= i < |s| => LowerChar(s[i]))
  }

  lemma LowerIdempotent(s: string)
    ensures Lower(Lower(s)) == Lower(s)
  {
  }

  /** The first character upper-cased, the rest kept verbatim. */
  function CapitalizeFirst(s: string): (r: string)
    ensures |r| == |s|
    ensures |s| > 0 ==> r[0] == UpperChar(s[0]) && r[1..] == s[1..]
  {
    if |s| == 0 then "" else [UpperChar(s[0])] + s[1..]
  }

  /** Every character in `from` becomes `to`. */
  function ReplaceChars(s: string, from: set<char>, to: char): (r: string)
    ensures |r| == |s|
    ensures forall i :: 0 <= i < |s| ==> r[i] == (if s[i] in from then to else s[i])
    ensures to !in from ==> forall i :: 0 <= i < |r| ==> r[i] !in from
  {
    seq(|s|, i requires 0 <= i < |s| => if s[i] in from then to else s[i])
  }

  // ---------------------------------------------------------------- words

  /** The length of the longest whitespace-free prefix. */
  function WordLen(s: string): (n: nat)
    ensures n <= |s| && NoSpace(s[..n])
    ensures n < |s| ==> IsSpace(s[n])
    decreases |s|
  {
    if |s| == 0 || IsSpace(s[0]) then 0
    else
      var m := WordLen(s[1..]);
      assert s[..m + 1] == [s[0]] + s[1..][..m];
      m + 1
  }

  /** `str::split_whitespace`: the maximal runs of non-whitespace characters, in order. */
  function SplitWhitespace(s: string): seq<string>
    decreases |s|
  {
    var t := TrimStart(s);
    if |t| == 0 then []
    else
      var n := WordLen(t);
      assert n > 0;
      [t[..n]] + SplitWhitespace(t[n..])
  }

  /** Every word is non-empty and free of whitespace. */
  lemma {:induction false} SplitWhitespaceWords(s: string)
    ensures forall i :: 0 <= i < |SplitWhitespace(s)| ==> |SplitWhitespace(s)[i]| > 0 && NoSpace(SplitWhitespace(s)[i])
    decreases |s|
  {
    var t := TrimStart(s);
    if |t| > 0 {
      var n := WordLen(t);
      SplitWhitespaceWords(t[n..]);
    }
  }

  /** A blank string has no words, and a string with a non-blank character has at least one. */
  lemma SplitWhitespaceBlank(s: string)
    ensures SplitWhitespace(s) == [] <==> AllSpace(s)
  {
    var t := TrimStart(s);
    if |t| > 0 {
      assert t[0] == s[|s| - |t|];
    }
  }

  /** Splitting single-space-joined words gives the words back. */
  lemma {:induction false} SplitWhitespaceOfJoin(words: seq<string>)
    requires forall i :: 0 <= i < |words| ==> |words[i]| > 0 && NoSpace(words[i])
    ensures SplitWhitespace(Join(words, " ")) == words
    decreases |words|
  {
    if |words| == 1 {
      SplitOneWord(words[0], "");
      assert words[0] + "" == words[0];
    } else if |words| > 1 {
      SplitWhitespaceOfJoin(words[1..]);
      SplitJoinStep(words);
    }
  }

  lemma SplitJoinStep(words: seq<string>)
    requires |words| > 1 && |words[0]| > 0 && NoSpace(words[0]) && |words[1]| > 0
    requires SplitWhitespace(Join(words[1..], " ")) == words[1..]
    ensures SplitWhitespace(Join(words, " ")) == words
  {
    var w, tail := words[0], words[1..];
    var rest := Join(tail, " ");
    JoinFirst(words, " ");
    SplitOneWord(w, " " + rest);
    SplitLeadingSpace(rest);
    HeadTail(words);
  }

  lemma JoinFirst(parts: seq<string>, sep: string)
    requires |parts| > 1
    ensures Join(parts, sep) == parts[0] + (sep + Join(parts[1..], sep))
  {
  }

  /** A leading space separates no word. */
  lemma SplitLeadingSpace(s: string)
    ensures SplitWhitespace(" " + s) == SplitWhitespace(s)
  {
    assert (" " + s)[1..] == s;
    assert TrimStart(" " + s) == TrimStart(s);
  }

  lemma HeadTail<T>(s: seq<T>)
    requires |s| > 0
    ensures s == [s[0]] + s[1..]
  {
  }

  /** A word followed by nothing or by whitespace is split off as the first word. */
  lemma SplitOneWord(w: string, tail: string)
    requires |w| > 0 && NoSpace(w)
    requires |tail| == 0 || IsSpace(tail[0])
    ensures SplitWhitespace(w + tail) == [w] + SplitWhitespace(tail)
  {
    var j := w + tail;
    assert TrimStart(j) == j;
    WordLenOfWord(w, tail);
    assert j[..|w|] == w && j[|w|..] == tail;
    if |tail| == 0 {
      assert SplitWhitespace(tail) == [];
    } else {
      assert TrimStart(tail) == TrimStart(tail[1..]);
    }
  }

  lemma {:induction false} WordLenOfWord(w: string, tail: string)
    requires |w| > 0 && NoSpace(w)
    requires |tail| == 0 || IsSpace(tail[0])
    ensures WordLen(w + tail) == |w|
    decreases |w|
  {
    var s := w + tail;
    assert s[0] == w[0] && !IsSpace(s[0]);
    if |w| > 1 {
      assert s[1..] == w[1..] + tail;
      assert NoSpace(w[1..]) by {
        assert forall i :: 0 <= i < |w| - 1 ==> w[1..][i] == w[i + 1];
      }
      WordLenOfWord(w[1..], tail);
    } else {
      assert s[1..] == tail;
      assert WordLen(tail) == 0;
    }
  }

  /** A character in neither the parts nor the separator is not in their join. */
  lemma {:induction false} JoinAvoids(parts: seq<string>, sep: string, c: char)
    requires c !in sep
    requires forall i :: 0 <= i < |parts| ==> c !in parts[i]
    ensures c !in Join(parts, sep)
    decreases |parts|
  {
    if |parts| > 1 {
      JoinAvoids(parts[1..], sep, c);
    }
  }

  /** The words of a string are made of its characters. */
  lemma {:induction false} SplitWhitespaceAvoids(s: string, c: char)
    requires c !in s
    ensures forall i :: 0 <= i < |SplitWhitespace(s)| ==> c !in SplitWhitespace(s)[i]
    decreases |s|
  {
    var t := TrimStart(s);
    if |t| > 0 {
      var n := WordLen(t);
      assert c !in t[..n];
      SplitWhitespaceAvoids(t[n..], c);
    }
  }

  /** Replacing characters that do not occur changes nothing. */
  lemma ReplaceCharsAbsent(s: string, from: set<char>, to: char)
    requires forall i :: 0 <= i < |s| ==> s[i] !in from
    ensures ReplaceChars(s, from, to) == s
  {
  }

  lemma JoinHead(parts: seq<string>, sep: string)
    requires |parts| > 0 && |parts[0]| > 0
    ensures |Join(parts, sep)| > 0 && Join(parts, sep)[0] == parts[0][0]
  {
  }
}
