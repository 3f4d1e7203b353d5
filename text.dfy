/**
 * The parts of Python's `str` and `int` that the bot relies on: `isspace`,
 * `strip`, `split()`, `split(sep)`, `lower`, `replace`, `str(int)` and `int(str)`.
 * Strings are sequences of Unicode scalar values, as Python's `str` is.
 */
module Text {
  import opened Wrappers

  /** Python's `str.isspace` for one character. */
  predicate IsSpace(c: char)
  {
    c == ' ' || ('\t' <= c <= '\r') || ('\U{1C}' <= c <= '\U{1F}') || c == '\U{85}' || c == '\U{A0}'
    || c == '\U{1680}' || ('\U{2000}' <= c <= '\U{200A}') || c == '\U{2028}' || c == '\U{2029}'
    || c == '\U{202F}' || c == '\U{205F}' || c == '\U{3000}'
  }

  predicate IsDigit(c: char)
  {
    '0' <= c <= '9'
  }

  predicate AllDigits(s: string)
  {
    forall i :: 0 <= i < |s| ==> IsDigit(s[i])
  }

  function DigitValue(c: char): (d: nat)
    requires IsDigit(c)
    ensures d < 10
  {
    c as int - '0' as int
  }

  function DigitChar(d: nat): (c: char)
    requires d < 10
    ensures IsDigit(c) && DigitValue(c) == d
  {
    ('0' as int + d) as char
  }

  // ---------------------------------------------------------------- strip

  function TrimLeft(s: string): (r: string)
    ensures |r| <= |s| && r == s[|s| - |r|..]
    ensures r == [] || !IsSpace(r[0])
    ensures forall i :: 0 <= i < |s| - |r| ==> IsSpace(s[i])
  {
    if |s| > 0 && IsSpace(s[0]) then TrimLeft(s[1..]) else s
  }

  function TrimRight(s: string): (r: string)
    ensures |r| <= |s| && r == s[..|r|]
    ensures r == [] || !IsSpace(r[|r| - 1])
    ensures forall i :: |r| <= i < |s| ==> IsSpace(s[i])
  {
    if |s| > 0 && IsSpace(s[|s| - 1]) then TrimRight(s[..|s| - 1]) else s
  }

  /** Python's `str.strip()`: drops leading and trailing whitespace and nothing else. */
  function Strip(s: string): (r: string)
    ensures IsStripped(r) && |r| <= |s|
  {
    TrimRight(TrimLeft(s))
  }

  /** `strip()` keeps a slice of the text and cuts off only whitespace on either side of it. */
  lemma StripSlice(s: string)
    ensures exists i, j :: TrimmedSlice(s, Strip(s), i, j)
  {
    var l := TrimLeft(s);
    var r := TrimRight(l);
    assert Strip(s) == r;
    TrimBothAt(s, l, r);
  }

  /** `r` is `s[i..j]`, and `s` has only whitespace before `i` and from `j` on. */
  predicate TrimmedSlice(s: string, r: string, i: int, j: int)
  {
    && 0 <= i <= j <= |s| && r == s[i..j]
    && (forall k :: 0 <= k < i ==> IsSpace(s[k]))
    && (forall k :: j <= k < |s| ==> IsSpace(s[k]))
  }

  /** Trimming both ends keeps a slice of the text with only whitespace around it. */
  lemma TrimBothAt(s: string, l: string, r: string)
    requires l == TrimLeft(s) && r == TrimRight(l)
    ensures exists i, j :: TrimmedSlice(s, r, i, j)
  {
    var i := |s| - |l|;
    assert l == s[i..] && r == l[..|r|];
    assert forall k :: 0 <= k < i ==> IsSpace(s[k]);
    SliceOfSuffix(s, i, r);
    SpaceAfterSlice(s, i, l, |r|);
    assert TrimmedSlice(s, r, i, i + |r|);
  }

  lemma SliceOfSuffix(s: string, i: nat, r: string)
    requires i <= |s| && |r| <= |s| - i && r == s[i..][..|r|]
    ensures r == s[i..i + |r|]
  {
  }

  lemma SpaceAfterSlice(s: string, i: nat, l: string, n: nat)
    requires i <= |s| && l == s[i..] && n <= |l|
    requires forall k :: n <= k < |l| ==> IsSpace(l[k])
    ensures forall k :: i + n <= k < |s| ==> IsSpace(s[k])
  {
    forall k | i + n <= k < |s|
      ensures IsSpace(s[k])
    {
      assert s[k] == l[k - i];
    }
  }

  predicate IsStripped(s: string)
  {
    s == [] || (!IsSpace(s[0]) && !IsSpace(s[|s| - 1]))
  }

  lemma StripStripped(s: string)
    requires IsStripped(s)
    ensures Strip(s) == s
  {
  }

  // ---------------------------------------------------------------- split

  predicate NoSpace(w: string)
  {
    forall j :: 0 <= j < |w| ==> !IsSpace(w[j])
  }

  /** The leading run of non-space characters. */
  function TakeWord(s: string): (w: string)
    ensures |w| <= |s| && w == s[..|w|]
    ensures NoSpace(w)
    ensures |w| < |s| ==> IsSpace(s[|w|])
  {
    if |s| == 0 || IsSpace(s[0]) then [] else [s[0]] + TakeWord(s[1..])
  }

  /** Python's `str.split()` with no argument: the maximal runs of non-space characters. */
  function Words(s: string): (ws: seq<string>)
    ensures forall i :: 0 <= i < |ws| ==> |ws[i]| > 0 && NoSpace(ws[i])
    decreases |s|
  {
    var t := TrimLeft(s);
    if t == [] then []
    else
      var w := TakeWord(t);
      assert |w| > 0;
      var rest := Words(t[|w|..]);
      WordListCons(w, rest);
      [w] + rest
  }

  lemma WordListCons(w: string, rest: seq<string>)
    requires |w| > 0 && NoSpace(w)
    requires forall i :: 0 <= i < |rest| ==> |rest[i]| > 0 && NoSpace(rest[i])
    ensures forall i :: 0 <= i < |[w] + rest| ==> |([w] + rest)[i]| > 0 && NoSpace(([w] + rest)[i])
  {
  }

  /** Python's `str.split(sep)` for a one-character separator; it always yields at least one part. */
  lemma {:induction false} TakeWordBeforeSpace(a: string, rest: string)
    requires NoSpace(a) && (rest == [] || IsSpace(rest[0]))
    ensures TakeWord(a + rest) == a
    decreases |a|
  {
    if |a| > 0 {
      assert (a + rest)[1..] == a[1..] + rest;
      TakeWordBeforeSpace(a[1..], rest);
    }
  }

  lemma WordsLeadingSpace(c: char, b: string)
    requires IsSpace(c)
    ensures Words([c] + b) == Words(b)
  {
    assert ([c] + b)[1..] == b;
    assert TrimLeft([c] + b) == TrimLeft(b);
  }

  lemma WordsCons(a: string, rest: string)
    requires |a| > 0 && NoSpace(a) && (rest == [] || IsSpace(rest[0]))
    ensures Words(a + rest) == [a] + Words(rest)
  {
    var s := a + rest;
    assert TrimLeft(s) == s;
    TakeWordBeforeSpace(a, rest);
    assert s[|a|..] == rest;
  }

  /** `split()` of two words joined by one space gives back the two words. */
  lemma WordsTwo(a: string, b: string)
    requires |a| > 0 && |b| > 0 && NoSpace(a) && NoSpace(b)
    ensures Words(a + " " + b) == [a, b]
  {
    assert a + " " + b == a + (" " + b);
    WordsCons(a, " " + b);
    WordsLeadingSpace(' ', b);
    WordsOne(b);
  }

  predicate AllSpace(s: string)
  {
    forall i :: 0 <= i < |s| ==> IsSpace(s[i])
  }

  /** `lstrip()` removes a leading run of whitespace whatever follows it. */
  lemma {:induction false} TrimLeftGap(gap: string, b: string)
    requires AllSpace(gap)
    ensures TrimLeft(gap + b) == TrimLeft(b)
    decreases |gap|
  {
    if |gap| > 0 {
      assert (gap + b)[1..] == gap[1..] + b;
      TrimLeftGap(gap[1..], b);
    } else {
      assert gap + b == b;
    }
  }

  /** Leading whitespace does not change what `split()` finds. */
  lemma WordsAfterGap(gap: string, b: string)
    requires AllSpace(gap)
    ensures Words(gap + b) == Words(b)
  {
    TrimLeftGap(gap, b);
  }

  /** `split()` of two words joined by any run of whitespace gives back the two words. */
  lemma WordsAcrossGap(a: string, gap: string, b: string)
    requires |a| > 0 && |b| > 0 && NoSpace(a) && NoSpace(b) && |gap| > 0 && AllSpace(gap)
    ensures Words(a + gap + b) == [a, b]
  {
    var t := gap + b;
    assert a + gap + b == a + t;
    assert t[0] == gap[0];
    WordsCons(a, t);
    WordsAfterGap(gap, b);
    WordsOne(b);
  }

  /** A suffix of a string that ends in non-space is all whitespace only when it is empty. */
  lemma SpaceSuffixEmpty(x: string, i: nat)
    requires i <= |x| && (x == [] || !IsSpace(x[|x| - 1]))
    ensures AllSpace(x[i..]) ==> i == |x|
  {
    if i < |x| {
      assert x[i..][|x| - 1 - i] == x[|x| - 1];
    }
  }

  /** A string that starts and ends with non-space and that `split()` finds one word in is that word. */
  lemma OneWordShape(u: string)
    requires u != [] && !IsSpace(u[0]) && !IsSpace(u[|u| - 1]) && |Words(u)| == 1
    ensures u == Words(u)[0]
  {
    assert TrimLeft(u) == u;
    var w := TakeWord(u);
    var v := u[|w|..];
    assert Words(u) == [w] + Words(v);
    assert TrimLeft(v) == [];
    SpaceSuffixEmpty(u, |w|);
    assert u == w + v;
  }

  /** `split()` of a string that starts with non-space begins with its leading word. */
  lemma WordsAtWord(s: string)
    requires s != [] && !IsSpace(s[0])
    ensures Words(s) == [TakeWord(s)] + Words(s[|TakeWord(s)|..])
  {
    assert TrimLeft(s) == s;
  }

  /** `split()` of a string with a word in it: its first word, then the words of what follows that word. */
  lemma WordsFirst(s: string) returns (w: string, rest: string)
    requires |Words(s)| >= 1
    ensures TrimLeft(s) == w + rest && w == TakeWord(TrimLeft(s))
    ensures Words(s) == [w] + Words(rest) && (rest == [] || IsSpace(rest[0]))
  {
    var t := TrimLeft(s);
    w := TakeWord(t);
    rest := t[|w|..];
    SplitJoin(t, |w|);
  }

  /** `split()` ignores leading whitespace. */
  lemma WordsTrimLeft(t: string)
    ensures Words(t) == Words(TrimLeft(t))
  {
    var u := TrimLeft(t);
    assert TrimLeft(u) == u;
  }

  /** The same, as the whole result of `split()`. */
  lemma OneWord(u: string)
    requires u != [] && !IsSpace(u[0]) && !IsSpace(u[|u| - 1]) && |Words(u)| == 1
    ensures Words(u) == [u]
  {
    OneWordShape(u);
  }

  /** `lstrip()` cuts a string into a run of whitespace and what it returns. */
  lemma TrimLeftCut(t: string) returns (gap: string, b: string)
    ensures b == TrimLeft(t) && t == gap + b && AllSpace(gap)
    ensures t != [] && IsSpace(t[0]) ==> |gap| > 0
    ensures b != [] ==> b[|b| - 1] == t[|t| - 1]
  {
    b := TrimLeft(t);
    gap := t[..|t| - |b|];
    forall i | 0 <= i < |gap|
      ensures IsSpace(gap[i])
    {
      assert gap[i] == t[i];
    }
    SplitJoin(t, |t| - |b|);
  }

  /** A string that ends in non-space and in which `split()` finds one word is a run of whitespace before that word. */
  lemma OneWordAfterGap(t: string) returns (gap: string, b: string)
    requires t != [] && !IsSpace(t[|t| - 1]) && |Words(t)| == 1
    ensures t == gap + b && AllSpace(gap) && Words(t) == [b]
    ensures IsSpace(t[0]) ==> |gap| > 0
  {
    gap, b := TrimLeftCut(t);
    WordsTrimLeft(t);
    assert b != [];
    OneWord(b);
  }

  /** A string with no whitespace at either end that `split()` cuts in two is the two words around a gap of whitespace. */
  lemma WordsTwoShape(s: string) returns (gap: string)
    requires IsStripped(s) && |Words(s)| == 2
    ensures |gap| > 0 && AllSpace(gap) && s == Words(s)[0] + gap + Words(s)[1]
  {
    var a, t := FirstWordCut(s);
    gap := TwoWordsAround(s, a, t);
  }

  /** A string with no whitespace at either end and two words is its first word followed by the rest, which starts with whitespace. */
  lemma FirstWordCut(s: string) returns (a: string, t: string)
    requires IsStripped(s) && |Words(s)| == 2
    ensures s == a + t && Words(s) == [a] + Words(t) && |Words(t)| == 1
    ensures t != [] && IsSpace(t[0]) && !IsSpace(t[|t| - 1])
  {
    a := TakeWord(s);
    t := s[|a|..];
    WordsAtWord(s);
    SplitJoin(s, |a|);
    assert t[|t| - 1] == s[|s| - 1];
  }

  lemma TwoWordsAround(s: string, a: string, t: string) returns (gap: string)
    requires s == a + t && Words(s) == [a] + Words(t) && |Words(t)| == 1
    requires t != [] && IsSpace(t[0]) && !IsSpace(t[|t| - 1])
    ensures |gap| > 0 && AllSpace(gap) && s == Words(s)[0] + gap + Words(s)[1]
  {
    var b;
    gap, b := OneWordAfterGap(t);
    ConcatAssoc(a, gap, b);
  }

  lemma ConcatAssoc<T>(x: seq<T>, y: seq<T>, z: seq<T>)
    ensures x + y + z == x + (y + z)
  {
  }

  /** Cutting a sequence in two and joining the pieces gives it back. */
  lemma SplitJoin<T>(x: seq<T>, k: nat)
    requires k <= |x|
    ensures x == x[..k] + x[k..]
  {
  }

  /** `split()` of one word gives that word alone. */
  lemma WordsOne(a: string)
    requires |a| > 0 && NoSpace(a)
    ensures Words(a) == [a]
  {
    assert TrimLeft(a) == a;
    TakeWordBeforeSpace(a, []);
    assert a + [] == a;
    assert a[|a|..] == [];
  }

  /** `split()` finds nothing exactly in a string made only of whitespace. */
  lemma WordsNoneIffSpace(s: string)
    ensures Words(s) == [] <==> AllSpace(s)
  {
  }

  /**
   * `split()` of two strings joined by a whitespace character is the words of
   * the first followed by the words of the second.
   */
  lemma {:induction false} WordsJoin(a: string, c: char, b: string)
    requires IsSpace(c)
    ensures Words(a + [c] + b) == Words(a) + Words(b)
    decreases |a|
  {
    if a == [] {
      assert a + [c] + b == [c] + b;
      WordsLeadingSpace(c, b);
    } else if IsSpace(a[0]) {
      WordsJoin(a[1..], c, b);
      WordsJoinAfterSpace(a, c, b);
    } else {
      var w := TakeWord(a);
      var rest := a[|w|..];
      WordJoin(a, w, rest, c, b);
      if rest == [] {
        assert a == w;
        WordsOne(w);
        WordsJoinLastWord(w, c, b);
      } else {
        WordsJoin(rest, c, b);
        WordsJoinMoreWords(w, rest, c, b);
      }
    }
  }

  /** `WordsJoin` for a string that starts with whitespace, from `WordsJoin` for the rest of it. */
  lemma {:induction false} WordsJoinAfterSpace(a: string, c: char, b: string)
    requires a != [] && IsSpace(a[0])
    requires Words(a[1..] + [c] + b) == Words(a[1..]) + Words(b)
    ensures Words(a + [c] + b) == Words(a) + Words(b)
  {
    var x, u := a[0], a[1..];
    var v := u + [c] + b;
    HeadJoin(a, c, b);
    WordsLeadingSpace(x, u);
    WordsLeadingSpace(x, v);
  }

  /** A non-empty string, alone and with `[c] + b` after it, is its first character before the rest. */
  lemma HeadJoin(a: string, c: char, b: string)
    requires a != []
    ensures a == [a[0]] + a[1..]
    ensures a + [c] + b == [a[0]] + (a[1..] + [c] + b)
  {
  }

  /** `WordsJoin` when the first string is one word. */
  lemma WordsJoinLastWord(w: string, c: char, b: string)
    requires |w| > 0 && NoSpace(w) && IsSpace(c)
    ensures Words(w + [c] + b) == [w] + Words(b)
  {
    assert w + [c] + b == w + ([c] + b);
    assert ([c] + b)[0] == c;
    WordsCons(w, [c] + b);
    WordsLeadingSpace(c, b);
  }

  /** `WordsJoin` when the first string is a word followed by whitespace and more. */
  lemma WordsJoinMoreWords(w: string, rest: string, c: char, b: string)
    requires |w| > 0 && NoSpace(w) && rest != [] && IsSpace(rest[0])
    requires Words(rest + [c] + b) == Words(rest) + Words(b)
    ensures Words(w + rest + [c] + b) == Words(w + rest) + Words(b)
  {
    var tail := rest + [c] + b;
    assert w + rest + [c] + b == w + tail;
    assert tail[0] == rest[0];
    WordsCons(w, rest);
    WordsCons(w, tail);
    ConcatAssoc([w], Words(rest), Words(b));
  }

  /** A string cut after its first word, alone and with `[c] + b` after it. */
  lemma WordJoin(a: string, w: string, rest: string, c: char, b: string)
    requires w == TakeWord(a) && rest == a[|w|..]
    ensures a == w + rest && a + [c] + b == w + (rest + [c] + b)
    ensures rest != [] ==> IsSpace(rest[0]) && (rest + [c] + b)[0] == rest[0]
    ensures rest == [] ==> rest + [c] + b == [c] + b && (rest + [c] + b)[0] == c
  {
    SplitJoin(a, |w|);
    if rest != [] {
      assert rest[0] == a[|w|];
    }
    CutJoin(a, w, rest, c, b);
  }

  /** A string cut in two, with `[c] + b` after it. */
  lemma CutJoin(a: string, w: string, rest: string, c: char, b: string)
    requires a == w + rest
    ensures a + [c] + b == w + (rest + [c] + b)
    ensures rest != [] ==> (rest + [c] + b)[0] == rest[0]
    ensures rest == [] ==> rest + [c] + b == [c] + b && (rest + [c] + b)[0] == c
  {
  }

  function SplitOn(s: string, sep: char): (parts: seq<string>)
    ensures |parts| >= 1
    ensures forall i :: 0 <= i < |parts| ==> sep !in parts[i]
  {
    if |s| == 0 then [""]
    else
      var rest := SplitOn(s[1..], sep);
      if s[0] == sep then [""] + rest else [[s[0]] + rest[0]] + rest[1..]
  }

  lemma {:induction false} SplitOnNoSep(s: string, sep: char)
    requires sep !in s
    ensures SplitOn(s, sep) == [s]
  {
    if |s| > 0 {
      SplitOnNoSep(s[1..], sep);
      assert [s[0]] + s[1..] == s;
    }
  }

  /** Splitting `a + [sep] + b` at `sep`, where `a` holds no separator, yields `a` followed by the parts of `b`. */
  lemma {:induction false} SplitOnJoin(a: string, sep: char, b: string)
    requires sep !in a
    ensures SplitOn(a + [sep] + b, sep) == [a] + SplitOn(b, sep)
  {
    if |a| == 0 {
      assert a + [sep] + b == [sep] + b;
      assert ([sep] + b)[1..] == b;
    } else {
      SplitOnJoin(a[1..], sep, b);
      assert (a + [sep] + b)[1..] == a[1..] + [sep] + b;
      assert [a[0]] + a[1..] == a;
    }
  }

  /** `sep.join(parts)`. */
  function JoinOn(parts: seq<string>, sep: char): string
    requires |parts| >= 1
  {
    if |parts| == 1 then parts[0] else parts[0] + [sep] + JoinOn(parts[1..], sep)
  }

  /** Putting a character in front of the first part puts it in front of the joined string. */
  lemma JoinOnFirstChar(c: char, parts: seq<string>, sep: char)
    requires |parts| >= 1
    ensures JoinOn([[c] + parts[0]] + parts[1..], sep) == [c] + JoinOn(parts, sep)
  {
    var ps := [[c] + parts[0]] + parts[1..];
    assert ps[1..] == parts[1..];
  }

  /** Joining the parts of `split(sep)` with `sep` gives the string back. */
  lemma {:induction false} JoinSplitOn(s: string, sep: char)
    ensures JoinOn(SplitOn(s, sep), sep) == s
  {
    if |s| > 0 {
      var rest := SplitOn(s[1..], sep);
      JoinSplitOn(s[1..], sep);
      if s[0] == sep {
        assert SplitOn(s, sep) == [""] + rest;
        assert ([""] + rest)[1..] == rest;
      } else {
        assert SplitOn(s, sep) == [[s[0]] + rest[0]] + rest[1..];
        JoinOnFirstChar(s[0], rest, sep);
      }
      assert [s[0]] + s[1..] == s;
    }
  }

  /** Two parts joined by `sep`. */
  lemma JoinOnTwo(parts: seq<string>, sep: char)
    requires |parts| == 2
    ensures JoinOn(parts, sep) == parts[0] + [sep] + parts[1]
  {
    assert JoinOn(parts[1..], sep) == parts[1];
  }

  /** Three parts joined by `sep`. */
  lemma JoinOnThree(parts: seq<string>, sep: char)
    requires |parts| == 3
    ensures JoinOn(parts, sep) == parts[0] + [sep] + parts[1] + [sep] + parts[2]
  {
    JoinOnTwo(parts[1..], sep);
    ConcatAssoc(parts[0] + [sep], parts[1] + [sep], parts[2]);
  }

  // ---------------------------------------------------------------- lower

  /**
   * Python's `str.lower()` for Latin and Cyrillic capitals; every other character
   * is returned unchanged.
   */
  function LowerChar(c: char): (r: char)
  {
    if 'A' <= c <= 'Z' then (c as int + 32) as char
    else if '\U{0410}' <= c <= '\U{042F}' then (c as int + 32) as char
    else if '\U{0400}' <= c <= '\U{040F}' then (c as int + 80) as char
    else c
  }

  function Lower(s: string): (r: string)
    ensures |r| == |s| && forall i :: 0 <= i < |s| ==> r[i] == LowerChar(s[i])
  {
    if |s| == 0 then [] else [LowerChar(s[0])] + Lower(s[1..])
  }

  /** `lower()` leaves a string without Latin or Cyrillic capitals unchanged. */
  lemma LowerNoCapitals(s: string)
    requires forall i :: 0 <= i < |s| ==> LowerChar(s[i]) == s[i]
    ensures Lower(s) == s
  {
  }

  // ---------------------------------------------------------------- replace

  predicate OccursAt(s: string, pat: string, i: nat)
  {
    i + |pat| <= |s| && s[i..i + |pat|] == pat
  }

  /** Python's `str.replace(pat, rep)`: every non-overlapping occurrence, scanned from the left. */
  function ReplaceAll(s: string, pat: string, rep: string): string
    requires |pat| > 0
    decreases |s|
  {
    if |s| < |pat| then s
    else if s[..|pat|] == pat then rep + ReplaceAll(s[|pat|..], pat, rep)
    else [s[0]] + ReplaceAll(s[1..], pat, rep)
  }

  /** Where the pattern does not occur, `replace` changes nothing. */
  lemma {:induction false} ReplaceAllAbsent(s: string, pat: string, rep: string)
    requires |pat| > 0
    requires forall i: nat :: !OccursAt(s, pat, i)
    ensures ReplaceAll(s, pat, rep) == s
    decreases |s|
  {
    if |s| >= |pat| {
      assert !OccursAt(s, pat, 0);
      assert s[0..|pat|] == s[..|pat|];
      forall i: nat ensures !OccursAt(s[1..], pat, i) {
        assert !OccursAt(s, pat, i + 1);
        if i + |pat| <= |s[1..]| {
          assert s[1..][i..i + |pat|] == s[i + 1..i + 1 + |pat|];
        }
      }
      ReplaceAllAbsent(s[1..], pat, rep);
      assert [s[0]] + s[1..] == s;
    }
  }

  /** A prefix occurrence is replaced and the scan resumes after it. */
  lemma ReplaceAllPrefix(s: string, pat: string, rep: string)
    requires |pat| > 0
    ensures ReplaceAll(pat + s, pat, rep) == rep + ReplaceAll(s, pat, rep)
  {
    assert (pat + s)[..|pat|] == pat;
    assert (pat + s)[|pat|..] == s;
  }

  /** A character that does not occur is never replaced. */
  lemma {:induction false} ReplaceCharAbsent(s: string, c: char, rep: string)
    requires c !in s
    ensures ReplaceAll(s, [c], rep) == s
  {
    if |s| > 0 {
      ReplaceCharAbsent(s[1..], c, rep);
      assert s[..1] == [s[0]];
      assert [s[0]] + s[1..] == s;
    }
  }

  /** A one-character pattern is replaced piecewise across a concatenation. */
  lemma {:induction false} ReplaceCharAppend(a: string, b: string, c: char, rep: string)
    ensures ReplaceAll(a + b, [c], rep) == ReplaceAll(a, [c], rep) + ReplaceAll(b, [c], rep)
    decreases |a|
  {
    if |a| == 0 {
      assert a + b == b;
    } else {
      ReplaceCharAppend(a[1..], b, c, rep);
      assert (a + b)[1..] == a[1..] + b;
      assert (a + b)[..1] == a[..1];
    }
  }

  // ---------------------------------------------------------------- str(int)

  /** Decimal digits of a natural number, without leading zeros. */
  function NatToString(n: nat): (s: string)
    ensures |s| > 0 && AllDigits(s)
    ensures |s| > 1 ==> s[0] != '0'
  {
    if n < 10 then [DigitChar(n)] else NatToString(n / 10) + [DigitChar(n % 10)]
  }

  /** Python's `str(n)` for an `int`. */
  function IntToString(n: int): (s: string)
    ensures |s| > 0
    ensures forall i :: 0 <= i < |s| ==> IsDigit(s[i]) || (i == 0 && s[i] == '-')
  {
    if n < 0 then "-" + NatToString(-n) else NatToString(n)
  }

  // ---------------------------------------------------------------- int(str)

  /** Decimal digits with single underscores between them, as Python's `int` admits. */
  predicate WellFormedDigits(s: string)
  {
    && |s| > 0 && IsDigit(s[0]) && IsDigit(s[|s| - 1])
    && (forall i :: 0 <= i < |s| ==> IsDigit(s[i]) || s[i] == '_')
    && (forall i :: 0 <= i < |s| - 1 ==> !(s[i] == '_' && s[i + 1] == '_'))
  }

  /** The value of the digits of `s`, underscores skipped. */
  function DigitsValue(s: string): nat
    requires forall i :: 0 <= i < |s| ==> IsDigit(s[i]) || s[i] == '_'
  {
    if |s| == 0 then 0
    else if s[|s| - 1] == '_' then DigitsValue(s[..|s| - 1])
    else DigitsValue(s[..|s| - 1]) * 10 + DigitValue(s[|s| - 1])
  }

  function ParseDigits(s: string): (r: Option<nat>)
    ensures r.Some? <==> WellFormedDigits(s)
  {
    if WellFormedDigits(s) then Some(DigitsValue(s)) else None
  }

  /**
   * Python's `int(s)` on a `str` in base 10: surrounding whitespace, an optional
   * sign, then digits; `None` where Python raises `ValueError`.
   */
  function ParseInt(s: string): (r: Option<int>)
  {
    var t := Strip(s);
    if |t| > 0 && (t[0] == '+' || t[0] == '-') then
      match ParseDigits(t[1..])
      case None => None
      case Some(n) =>
        var v: int := n;
        Some(if t[0] == '-' then -v else v)
    else
      match ParseDigits(t)
      case None => None
      case Some(n) => Some(n)
  }

  lemma {:induction false} NatToStringValue(n: nat)
    ensures DigitsValue(NatToString(n)) == n
  {
    var s := NatToString(n);
    if n >= 10 {
      NatToStringValue(n / 10);
      assert s[..|s| - 1] == NatToString(n / 10);
    }
  }

  /** `int(str(n)) == n`: the decimal rendering reads back as the same integer. */
  lemma IntToStringRoundTrip(n: int)
    ensures ParseInt(IntToString(n)) == Some(n)
  {
    var s := IntToString(n);
    var digits := if n < 0 then NatToString(-n) else NatToString(n);
    assert IsStripped(s);
    StripStripped(s);
    NatToStringValue(if n < 0 then -n else n);
    if n < 0 {
      assert s[1..] == digits;
    }
    assert WellFormedDigits(digits);
  }

  /** Zero-padded two-digit rendering, as `strftime` writes `%d`, `%m`, `%H` and `%M`. */
  function Pad2(n: nat): (s: string)
    requires n < 100
    ensures |s| == 2 && AllDigits(s)
  {
    [DigitChar(n / 10), DigitChar(n % 10)]
  }

  /** Zero-padded four-digit rendering, as `isoformat` and `strftime` write the year. */
  function Pad4(n: nat): (s: string)
    requires n < 10000
    ensures |s| == 4 && AllDigits(s)
  {
    var hi, lo := n / 100, n % 100;
    [DigitChar(hi / 10), DigitChar(hi % 10), DigitChar(lo / 10), DigitChar(lo % 10)]
  }

  lemma Pad2Value(n: nat)
    requires n < 100
    ensures DigitsValue(Pad2(n)) == n
  {
    var s := Pad2(n);
    assert s[..1] == [s[0]] && [s[0]][..0] == [];
    assert DigitsValue(s[..1]) == DigitValue(s[0]);
    assert DigitsValue(s) == DigitValue(s[0]) * 10 + DigitValue(s[1]);
    assert DigitValue(s[0]) == n / 10 && DigitValue(s[1]) == n % 10;
  }

  lemma Pad4Value(n: nat)
    requires n < 10000
    ensures DigitsValue(Pad4(n)) == n
  {
    var s := Pad4(n);
    var hi, lo := n / 100, n % 100;
    assert s[..3][..2][..1][..0] == [];
    assert s[..3][..2][..1] == [s[0]];
    assert s[..3][..2] == [s[0], s[1]];
    assert s[..3] == [s[0], s[1], s[2]];
    assert DigitsValue(s[..3][..2][..1]) == DigitValue(s[0]) == hi / 10;
    assert DigitsValue(s[..3][..2]) == hi / 10 * 10 + hi % 10 == hi;
    assert DigitsValue(s[..3]) == hi * 10 + lo / 10;
    assert DigitsValue(s) == (hi * 10 + lo / 10) * 10 + lo % 10;
    assert (hi * 10 + lo / 10) * 10 + lo % 10 == hi * 100 + (lo / 10 * 10 + lo % 10);
  }

  /** `int` reads a run of ASCII digits as its decimal value. */
  lemma ParseAllDigits(s: string)
    requires |s| > 0 && AllDigits(s)
    ensures ParseInt(s) == Some(DigitsValue(s))
  {
    assert !IsSpace(s[0]) && !IsSpace(s[|s| - 1]);
    StripStripped(s);
    assert s[0] != '+' && s[0] != '-';
    assert WellFormedDigits(s);
  }

  /** `int` reads a padded field back as the number it renders. */
  lemma ParsePad2(n: nat)
    requires n < 100
    ensures ParseInt(Pad2(n)) == Some(n)
  {
    ParseAllDigits(Pad2(n));
    Pad2Value(n);
  }

  lemma ParsePad4(n: nat)
    requires n < 10000
    ensures ParseInt(Pad4(n)) == Some(n)
  {
    ParseAllDigits(Pad4(n));
    Pad4Value(n);
  }

}
