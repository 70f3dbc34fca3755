/** The JavaScript string operations the components rely on: `toLowerCase`
    (ASCII letters only), `includes`, `trim`, `split`, and the global regular
    expression replacements `/\s+/g` and `/-+/g`, which replace each maximal
    run of matching characters by one character. */
module JsStrings {

  import opened Types
  import opened Sequences

  /** The characters `\s` and `trim` treat as white space: the ECMAScript
      WhiteSpace and LineTerminator sets. */
  predicate IsWhitespace(c: char) {
    c == ' ' || c == '\t' || c == '\n' || c == '\U{000B}' || c == '\U{000C}' || c == '\r'
    || c == '\U{00A0}' || c == '\U{1680}' || ('\U{2000}' <= c <= '\U{200A}')
    || c == '\U{2028}' || c == '\U{2029}' || c == '\U{202F}' || c == '\U{205F}'
    || c == '\U{3000}' || c == '\U{FEFF}'
  }

  predicate NoWhitespace(s: string) {
    forall i :: 0 <= i < |s| ==> !IsWhitespace(s[i])
  }

  predicate IsUpper(c: char) {
    'A' <= c <= 'Z'
  }

  function LowerChar(c: char): (r: char)
    ensures !IsUpper(r)
    ensures IsUpper(c) ==> r as int == c as int + 32
    ensures !IsUpper(c) ==> r == c
  {
    if IsUpper(c) then (c as int + 32) as char else c
  }

  /** `s.toLowerCase()` restricted to ASCII letters. */
  function ToLower(s: string): (r: string)
    ensures |r| == |s|
    ensures forall i :: 0 <= i < |s| ==> r[i] == LowerChar(s[i])
  {
    seq(|s|, i requires 0 <= i < |s| => LowerChar(s[i]))
  }

  lemma ToLowerAppend(a: string, b: string)
    ensures ToLower(a + b) == ToLower(a) + ToLower(b)
  {
  }

  /** Lower-casing a string without upper-case letters changes nothing. */
  lemma ToLowerNoUpper(s: string)
    requires forall i :: 0 <= i < |s| ==> !IsUpper(s[i])
    ensures ToLower(s) == s
  {
  }

  predicate StartsWith(s: string, prefix: string) {
    |prefix| <= |s| && s[..|prefix|] == prefix
  }

  /** `hay.includes(needle)`, searching position by position. */
  predicate Includes(hay: string, needle: string)
    decreases |hay|
  {
    StartsWith(hay, needle) || (|hay| > 0 && Includes(hay[1..], needle))
  }

  /** `needle` occurs in `hay` starting at index `i`. */
  predicate OccursAt(hay: string, needle: string, i: int) {
    0 <= i && i + |needle| <= |hay| && hay[i..i + |needle|] == needle
  }

  /** The search finds the needle exactly when it occurs somewhere. */
  lemma {:induction false} IncludesIffOccurs(hay: string, needle: string)
    ensures Includes(hay, needle) <==> exists i :: OccursAt(hay, needle, i)
    decreases |hay|
  {
    if StartsWith(hay, needle) {
      assert OccursAt(hay, needle, 0);
    } else if |hay| > 0 {
      IncludesIffOccurs(hay[1..], needle);
      if Includes(hay[1..], needle) {
        var i :| OccursAt(hay[1..], needle, i);
        assert hay[i + 1..i + 1 + |needle|] == hay[1..][i..i + |needle|];
        assert OccursAt(hay, needle, i + 1);
      } else {
        forall i | OccursAt(hay, needle, i) ensures false {
          assert i != 0;
          assert hay[1..][i - 1..i - 1 + |needle|] == hay[i..i + |needle|];
          assert OccursAt(hay[1..], needle, i - 1);
        }
      }
    }
  }

  /** The empty string is found in every string. */
  lemma IncludesEmpty(hay: string)
    ensures Includes(hay, "")
  {
  }

  /** Whatever contains `n + m` contains `n`. */
  lemma {:induction false} IncludesPrefixOfNeedle(hay: string, n: string, m: string)
    requires Includes(hay, n + m)
    ensures Includes(hay, n)
    decreases |hay|
  {
    if StartsWith(hay, n + m) {
      assert hay[..|n|] == (n + m)[..|n|] == n;
    } else {
      IncludesPrefixOfNeedle(hay[1..], n, m);
    }
  }

  /** `s.trimStart()` */
  function TrimStart(s: string): (r: string)
    ensures |r| <= |s| && r == s[|s| - |r|..]
    ensures forall i :: 0 <= i < |s| - |r| ==> IsWhitespace(s[i])
    ensures r != [] ==> !IsWhitespace(r[0])
  {
    if |s| > 0 && IsWhitespace(s[0]) then
      var r := TrimStart(s[1..]);
      assert s[1..][|s| - 1 - |r|..] == s[|s| - |r|..];
      assert forall i :: 1 <= i < |s| - |r| ==> s[i] == s[1..][i - 1];
      r
    else s
  }

  /** `s.trimEnd()` */
  function TrimEnd(s: string): (r: string)
    ensures |r| <= |s| && r == s[..|r|]
    ensures forall i :: |r| <= i < |s| ==> IsWhitespace(s[i])
    ensures r != [] ==> !IsWhitespace(r[|r| - 1])
  {
    if |s| > 0 && IsWhitespace(s[|s| - 1]) then
      var r := TrimEnd(s[..|s| - 1]);
      assert s[..|s| - 1][..|r|] == s[..|r|];
      assert forall i :: |r| <= i < |s| - 1 ==> s[i] == s[..|s| - 1][i];
      r
    else s
  }

  /** `r` is the piece of `s` that starts at `i`, and everything of `s`
      around it is white space. */
  predicate CutFrom(s: string, r: string, i: int) {
    0 <= i <= |s| - |r| && r == s[i..i + |r|] &&
    (forall k :: 0 <= k < i ==> IsWhitespace(s[k])) &&
    (forall k :: i + |r| <= k < |s| ==> IsWhitespace(s[k]))
  }

  /** `s.trim()`: the piece of `s` left when the white space at both ends is
      cut off. */
  function Trim(s: string): (r: string)
    ensures |r| <= |s| && forall i :: 0 <= i < |r| ==> r[i] in s
    ensures exists i :: CutFrom(s, r, i)
    ensures r != [] ==> !IsWhitespace(r[0]) && !IsWhitespace(r[|r| - 1])
    ensures NoWhitespace(s) ==> r == s
  {
    var t := TrimStart(s);
    var r := TrimEnd(t);
    TrimPieces(s, t, r);
    r
  }

  /** The contracts of `TrimStart` and `TrimEnd` give that of `Trim`. */
  lemma TrimPieces(s: string, t: string, r: string)
    requires |t| <= |s| && t == s[|s| - |t|..]
    requires forall k :: 0 <= k < |s| - |t| ==> IsWhitespace(s[k])
    requires t != [] ==> !IsWhitespace(t[0])
    requires |r| <= |t| && r == t[..|r|]
    requires forall k :: |r| <= k < |t| ==> IsWhitespace(t[k])
    requires r != [] ==> !IsWhitespace(r[|r| - 1])
    ensures |r| <= |s| && forall i :: 0 <= i < |r| ==> r[i] in s
    ensures CutFrom(s, r, |s| - |t|)
    ensures r != [] ==> !IsWhitespace(r[0]) && !IsWhitespace(r[|r| - 1])
    ensures NoWhitespace(s) ==> r == s
  {
    CutOfSuffixPrefix(s, t, r);
    assert |t| < |s| ==> IsWhitespace(s[0]);
    assert |r| < |t| ==> IsWhitespace(t[|r|]) && t[|r|] == s[|s| - |t| + |r|];
  }

  /** A suffix after leading white space, cut down to a prefix before
      trailing white space, is a piece of the original with white space
      around it. */
  lemma CutOfSuffixPrefix(s: string, t: string, r: string)
    requires |t| <= |s| && t == s[|s| - |t|..]
    requires forall k :: 0 <= k < |s| - |t| ==> IsWhitespace(s[k])
    requires |r| <= |t| && r == t[..|r|]
    requires forall k :: |r| <= k < |t| ==> IsWhitespace(t[k])
    ensures CutFrom(s, r, |s| - |t|)
    ensures forall k :: 0 <= k < |r| ==> r[k] == s[|s| - |t| + k]
  {
    var i := |s| - |t|;
    assert forall k :: 0 <= k < |r| ==> r[k] == s[i + k];
    assert forall k :: i + |r| <= k < |s| ==> s[k] == t[k - i];
  }

  /** A piece without white space at its ends and with only white space
      around it is unique: the contract of `Trim` fixes its result. */
  lemma CutUnique(s: string, r: string, i: int, x: string, m: int)
    requires CutFrom(s, r, i) && CutFrom(s, x, m)
    requires r != [] ==> !IsWhitespace(r[0]) && !IsWhitespace(r[|r| - 1])
    requires x != [] ==> !IsWhitespace(x[0]) && !IsWhitespace(x[|x| - 1])
    ensures r == x
  {
    if r != [] && x != [] {
      assert r[0] == s[i] && x[0] == s[m];
      assert r[|r| - 1] == s[i + |r| - 1] && x[|x| - 1] == s[m + |x| - 1];
      assert i == m;
      assert |r| == |x|;
    }
  }

  /** Trimming white space around a piece without white space at its ends
      gives back the piece. */
  lemma TrimStrip(lead: string, x: string, trail: string)
    requires forall k :: 0 <= k < |lead| ==> IsWhitespace(lead[k])
    requires forall k :: 0 <= k < |trail| ==> IsWhitespace(trail[k])
    requires x != [] ==> !IsWhitespace(x[0]) && !IsWhitespace(x[|x| - 1])
    ensures Trim(lead + x + trail) == x
  {
    var s := lead + x + trail;
    var r := Trim(s);
    var i :| CutFrom(s, r, i);
    CutAround(lead, x, trail);
    CutUnique(s, r, i, x, |lead|);
  }

  lemma CutAround(lead: string, x: string, trail: string)
    requires forall k :: 0 <= k < |lead| ==> IsWhitespace(lead[k])
    requires forall k :: 0 <= k < |trail| ==> IsWhitespace(trail[k])
    ensures CutFrom(lead + x + trail, x, |lead|)
  {
    var s := lead + x + trail;
    assert s[|lead|..|lead| + |x|] == x;
    assert forall k :: 0 <= k < |lead| ==> s[k] == lead[k];
    assert forall k :: |lead| + |x| <= k < |s| ==> s[k] == trail[k - |lead| - |x|];
  }

  /** `s.trim()` is empty exactly when `s` is all white space. */
  lemma TrimEmptyIff(s: string)
    ensures Trim(s) == [] <==> forall i :: 0 <= i < |s| ==> IsWhitespace(s[i])
  {
    var t := TrimStart(s);
    if t != [] {
      assert !IsWhitespace(t[0]);
      assert t[0] == s[|s| - |t|];
    }
  }

  /** A string with no white space at either end is its own trim. */
  lemma TrimNoOuterWhitespace(s: string)
    requires s != [] ==> !IsWhitespace(s[0]) && !IsWhitespace(s[|s| - 1])
    ensures Trim(s) == s
  {
  }

  /** `s` with every character failing `keep` removed (`s.replace(/[^...]/g, '')`). */
  function KeepChars(s: string, keep: char -> bool): (r: string)
    ensures |r| <= |s|
    ensures forall i :: 0 <= i < |r| ==> keep(r[i]) && r[i] in s
    ensures forall c :: multiset(r)[c] == if keep(c) then multiset(s)[c] else 0
    ensures IsSubsequence(r, s)
    ensures (forall i :: 0 <= i < |s| ==> keep(s[i])) ==> r == s
  {
    if s == [] then []
    else
      var rest := KeepChars(s[1..], keep);
      KeepCharsStep(s, keep, rest);
      KeepCharsStepCounts(s, keep, rest);
      KeepCharsStepAll(s, keep, rest);
      if keep(s[0]) then [s[0]] + rest else rest
  }

  /** One step of the filter: the head is kept or dropped in front of the
      filtered tail. */
  lemma KeepCharsStep(s: string, keep: char -> bool, rest: string)
    requires s != []
    requires |rest| <= |s| - 1
    requires forall i :: 0 <= i < |rest| ==> keep(rest[i]) && rest[i] in s[1..]
    requires IsSubsequence(rest, s[1..])
    ensures var r := if keep(s[0]) then [s[0]] + rest else rest;
      && |r| <= |s|
      && (forall i :: 0 <= i < |r| ==> keep(r[i]) && r[i] in s)
      && IsSubsequence(r, s)
  {
    assert forall c :: c in s[1..] ==> c in s;
    if keep(s[0]) {
      assert ([s[0]] + rest)[1..] == rest;
    } else {
      assert rest == [] || rest[0] != s[0];
    }
  }

  lemma KeepCharsStepCounts(s: string, keep: char -> bool, rest: string)
    requires s != []
    requires forall c :: multiset(rest)[c] == if keep(c) then multiset(s[1..])[c] else 0
    ensures var r := if keep(s[0]) then [s[0]] + rest else rest;
      forall c :: multiset(r)[c] == if keep(c) then multiset(s)[c] else 0
  {
    assert multiset(s) == multiset{s[0]} + multiset(s[1..]) by {
      assert s == [s[0]] + s[1..];
    }
  }

  lemma KeepCharsStepAll(s: string, keep: char -> bool, rest: string)
    requires s != []
    requires (forall i :: 0 <= i < |s| - 1 ==> keep(s[1..][i])) ==> rest == s[1..]
    ensures (forall i :: 0 <= i < |s| ==> keep(s[i])) ==> [s[0]] + rest == s
  {
    if forall i :: 0 <= i < |s| ==> keep(s[i]) {
      assert forall i :: 0 <= i < |s| - 1 ==> s[1..][i] == s[i + 1];
      ConsAppend(s, []);
    }
  }

  /** The suffix of `s` after its leading run of `inRun` characters. */
  function SkipRun(s: string, inRun: char -> bool): (r: string)
    ensures |r| <= |s| && r == s[|s| - |r|..]
    ensures r != [] ==> !inRun(r[0])
  {
    if |s| > 0 && inRun(s[0]) then SkipRun(s[1..], inRun) else s
  }

  /** `s.replace(/X+/g, r)` where `X` is the character class `inRun`: every
      maximal run of `inRun` characters becomes the single character `r`. */
  function ReplaceRuns(s: string, inRun: char -> bool, r: char): (out: string)
    ensures |out| <= |s|
    ensures forall i :: 0 <= i < |out| ==> out[i] == r || (out[i] in s && !inRun(out[i]))
    ensures forall i :: 0 <= i < |out| - 1 ==> !(inRun(out[i]) && inRun(out[i + 1]))
    decreases |s|
  {
    if s == [] then []
    else if inRun(s[0]) then
      var rest := SkipRun(s, inRun);
      var tail := ReplaceRuns(rest, inRun, r);
      assert forall c :: c in rest ==> c in s;
      [r] + tail
    else
      var tail := ReplaceRuns(s[1..], inRun, r);
      assert forall c :: c in s[1..] ==> c in s;
      [s[0]] + tail
  }

  /** The first character of the replacement is the replacement character or the
      first character of the input. */
  lemma {:induction false} ReplaceRunsHead(s: string, inRun: char -> bool, r: char)
    requires s != []
    ensures ReplaceRuns(s, inRun, r) != []
    ensures ReplaceRuns(s, inRun, r)[0] == if inRun(s[0]) then r else s[0]
  {
  }

  /** A string whose run characters are already single copies of `r` is left
      as it is. */
  lemma {:induction false} ReplaceRunsIdentity(s: string, inRun: char -> bool, r: char)
    requires forall i :: 0 <= i < |s| && inRun(s[i]) ==> s[i] == r
    requires forall i :: 0 <= i < |s| - 1 ==> !(inRun(s[i]) && inRun(s[i + 1]))
    ensures ReplaceRuns(s, inRun, r) == s
    decreases |s|
  {
    if s != [] {
      ReplaceRunsIdentity(s[1..], inRun, r);
      if inRun(s[0]) {
        assert SkipRun(s, inRun) == s[1..] by {
          assert s[1..] == [] || !inRun(s[1]);
        }
      }
    }
  }

  /** A stretch without run characters passes through unchanged. */
  lemma {:induction false} ReplaceRunsPlain(a: string, rest: string, inRun: char -> bool, r: char)
    requires forall i :: 0 <= i < |a| ==> !inRun(a[i])
    ensures ReplaceRuns(a + rest, inRun, r) == a + ReplaceRuns(rest, inRun, r)
    decreases |a|
  {
    if a == [] {
      assert a + rest == rest;
    } else {
      ReplaceRunsPlain(a[1..], rest, inRun, r);
      ReplaceRunsPlainStep(a, rest, inRun, r);
    }
  }

  lemma ReplaceRunsPlainStep(a: string, rest: string, inRun: char -> bool, r: char)
    requires a != [] && !inRun(a[0])
    requires ReplaceRuns(a[1..] + rest, inRun, r) == a[1..] + ReplaceRuns(rest, inRun, r)
    ensures ReplaceRuns(a + rest, inRun, r) == a + ReplaceRuns(rest, inRun, r)
  {
    ConsAppend(a, rest);
    ReplaceRunsKeepsHead(a[0], a[1..] + rest, inRun, r);
    ConsAppend(a, ReplaceRuns(rest, inRun, r));
  }

  /** A first character outside any run is kept. */
  lemma ReplaceRunsKeepsHead(c: char, t: string, inRun: char -> bool, r: char)
    requires !inRun(c)
    ensures ReplaceRuns([c] + t, inRun, r) == [c] + ReplaceRuns(t, inRun, r)
  {
    assert ([c] + t)[0] == c && ([c] + t)[1..] == t;
  }

  lemma ConsAppend(a: string, x: string)
    requires a != []
    ensures [a[0]] + (a[1..] + x) == a + x
  {
    assert a == [a[0]] + a[1..];
  }

  /** A run of one character followed by a non-run character becomes `r`. */
  lemma ReplaceRunsSingle(c: char, b: string, inRun: char -> bool, r: char)
    requires inRun(c) && (b == [] || !inRun(b[0]))
    ensures ReplaceRuns([c] + b, inRun, r) == [r] + ReplaceRuns(b, inRun, r)
  {
    assert ([c] + b)[1..] == b;
    assert SkipRun(b, inRun) == b;
    assert SkipRun([c] + b, inRun) == b;
  }

  /** The index of the first occurrence of a non-empty `sep` in `s`. */
  function FirstIndexOf(s: string, sep: string): (r: Option<nat>)
    requires sep != []
    ensures r.Some? ==> OccursAt(s, sep, r.value)
    ensures r.Some? ==> forall j :: 0 <= j < r.value ==> !OccursAt(s, sep, j)
    ensures r.None? ==> forall j :: !OccursAt(s, sep, j)
  {
    if |s| < |sep| then None
    else if s[..|sep|] == sep then Some(0)
    else
      var tail := s[1..];
      match FirstIndexOf(tail, sep)
      case None =>
        assert forall j :: OccursAt(s, sep, j) ==> j == 0 || OccursAt(tail, sep, j - 1) by {
          forall j | OccursAt(s, sep, j) && j != 0 ensures OccursAt(tail, sep, j - 1) {
            OccursShift(s, sep, j);
          }
        }
        None
      case Some(k) =>
        OccursShift(s, sep, k + 1);
        assert forall j :: 0 <= j < k + 1 ==> !OccursAt(s, sep, j) by {
          forall j | 0 < j < k + 1 ensures !OccursAt(s, sep, j) {
            OccursShift(s, sep, j);
          }
        }
        Some(k + 1)
  }

  /** An occurrence past the first character is an occurrence in the rest. */
  lemma OccursShift(s: string, sep: string, j: int)
    requires s != [] && j >= 1
    ensures OccursAt(s, sep, j) <==> OccursAt(s[1..], sep, j - 1)
  {
    if j + |sep| <= |s| {
      assert s[1..][j - 1..j - 1 + |sep|] == s[j..j + |sep|];
    }
  }

  /** `s.split(sep)` for a non-empty separator: cut at each occurrence, scanning
      from the left. */
  function Split(s: string, sep: string): (parts: seq<string>)
    requires sep != []
    ensures |parts| >= 1
    decreases |s|
  {
    match FirstIndexOf(s, sep)
    case None => [s]
    case Some(i) => [s[..i]] + Split(s[i + |sep|..], sep)
  }

  /** The split cuts at the leftmost occurrence of the separator, so a
      longer run than the separator leaves its rest in the next piece. */
  lemma SplitAtLeftmost(s: string, sep: string, i: int)
    requires sep != [] && OccursAt(s, sep, i)
    requires forall j :: 0 <= j < i ==> !OccursAt(s, sep, j)
    ensures Split(s, sep) == [s[..i]] + Split(s[i + |sep|..], sep)
  {
    FirstIndexOfLeftmost(s, sep, i);
  }

  lemma FirstIndexOfLeftmost(s: string, sep: string, i: int)
    requires sep != [] && OccursAt(s, sep, i)
    requires forall j :: 0 <= j < i ==> !OccursAt(s, sep, j)
    ensures FirstIndexOf(s, sep) == Some(i)
  {
    var r := FirstIndexOf(s, sep);
    assert r.Some?;
    var k := r.value;
    assert !(k < i) && !(i < k);
  }

  /** Three line breaks make two pieces, the second starting with the
      third break. */
  lemma SplitTripleBreak()
    ensures Split("a\n\n\nb", "\n\n") == ["a", "\nb"]
  {
    var s := "a\n\n\nb";
    assert s[0..2][0] == 'a';
    assert OccursAt(s, "\n\n", 1) && !OccursAt(s, "\n\n", 0);
    SplitAtLeftmost(s, "\n\n", 1);
    TripleBreakPieces(s);
    NoDoubleBreakIn("\nb");
    SplitWithoutSeparator("\nb", "\n\n");
  }

  lemma TripleBreakPieces(s: string)
    requires s == "a\n\n\nb"
    ensures s[..1] == "a" && s[1 + |"\n\n"|..] == "\nb"
  {
    assert |s[3..]| == 2 && s[3..][0] == '\n' && s[3..][1] == 'b';
  }

  lemma NoDoubleBreakIn(t: string)
    requires t == "\nb"
    ensures !Includes(t, "\n\n")
  {
    IncludesIffOccurs(t, "\n\n");
    assert t[0..2][1] == 'b';
  }

  /** A string where the separator does not occur splits into itself. */
  lemma SplitWithoutSeparator(s: string, sep: string)
    requires sep != [] && !Includes(s, sep)
    ensures Split(s, sep) == [s]
  {
    IncludesIffOccurs(s, sep);
    assert FirstIndexOf(s, sep).None?;
  }

  /** `parts.join(sep)` */
  function Join(parts: seq<string>, sep: string): string
    requires |parts| >= 1
  {
    if |parts| == 1 then parts[0] else parts[0] + sep + Join(parts[1..], sep)
  }

  /** Joining the pieces again gives back the original string. */
  lemma {:induction false} SplitJoin(s: string, sep: string)
    requires sep != []
    ensures Join(Split(s, sep), sep) == s
    decreases |s|
  {
    match FirstIndexOf(s, sep)
    case None =>
    case Some(i) =>
      var rest := s[i + |sep|..];
      var parts := Split(rest, sep);
      SplitJoin(rest, sep);
      assert Split(s, sep) == [s[..i]] + parts;
      assert ([s[..i]] + parts)[1..] == parts;
      assert Join(Split(s, sep), sep) == s[..i] + sep + Join(parts, sep);
      assert s == s[..i] + s[i..i + |sep|] + rest;
  }

  /** No piece of a split contains the separator. */
  lemma {:induction false} SplitPiecesAvoidSeparator(s: string, sep: string)
    requires sep != []
    ensures forall p :: p in Split(s, sep) ==> !Includes(p, sep)
    decreases |s|
  {
    match FirstIndexOf(s, sep)
    case None =>
      IncludesIffOccurs(s, sep);
    case Some(i) =>
      var rest := s[i + |sep|..];
      SplitPiecesAvoidSeparator(rest, sep);
      forall j | OccursAt(s[..i], sep, j) ensures false {
        assert s[..i][j..j + |sep|] == s[j..j + |sep|];
        assert OccursAt(s, sep, j);
      }
      IncludesIffOccurs(s[..i], sep);
      assert Split(s, sep) == [s[..i]] + Split(rest, sep);
  }

  // ------------------------------------------------- words joined by a separator

  predicate IsAlnum(c: char) {
    ('a' <= c <= 'z') || ('A' <= c <= 'Z') || ('0' <= c <= '9')
  }

  /** A non-empty run of ASCII letters and digits. */
  predicate IsWord(w: string) {
    w != [] && forall i :: 0 <= i < |w| ==> IsAlnum(w[i])
  }

  function LowerWords(ws: seq<string>): (r: seq<string>)
    ensures |r| == |ws| && forall i :: 0 <= i < |ws| ==> r[i] == ToLower(ws[i])
  {
    seq(|ws|, i requires 0 <= i < |ws| => ToLower(ws[i]))
  }

  lemma {:induction false} ToLowerJoin(ws: seq<string>, sep: string)
    requires |ws| >= 1
    ensures ToLower(Join(ws, sep)) == Join(LowerWords(ws), ToLower(sep))
    decreases |ws|
  {
    if |ws| > 1 {
      ToLowerJoin(ws[1..], sep);
      ToLowerAppend(ws[0] + sep, Join(ws[1..], sep));
      ToLowerAppend(ws[0], sep);
      assert LowerWords(ws)[1..] == LowerWords(ws[1..]);
    }
  }

  /** Every character of a join comes from a part or from the separator. */
  lemma {:induction false} JoinChars(ws: seq<string>, sep: string, p: char -> bool)
    requires |ws| >= 1
    requires forall k, i :: 0 <= k < |ws| && 0 <= i < |ws[k]| ==> p(ws[k][i])
    requires forall i :: 0 <= i < |sep| ==> p(sep[i])
    ensures forall i :: 0 <= i < |Join(ws, sep)| ==> p(Join(ws, sep)[i])
    decreases |ws|
  {
    if |ws| > 1 {
      JoinChars(ws[1..], sep, p);
      var j := Join(ws, sep);
      var rest := Join(ws[1..], sep);
      forall i | 0 <= i < |j| ensures p(j[i]) {
        if i < |ws[0]| {
          assert j[i] == ws[0][i];
        } else if i < |ws[0]| + |sep| {
          assert j[i] == sep[i - |ws[0]|];
        } else {
          assert j[i] == rest[i - |ws[0]| - |sep|];
        }
      }
    }
  }

  /** A join of non-empty parts starts with the first part's first character
      and ends with the last part's last character. */
  lemma {:induction false} JoinEnds(ws: seq<string>, sep: string)
    requires |ws| >= 1 && forall k :: 0 <= k < |ws| ==> ws[k] != []
    ensures Join(ws, sep) != []
    ensures Join(ws, sep)[0] == ws[0][0]
    ensures Join(ws, sep)[|Join(ws, sep)| - 1] == ws[|ws| - 1][|ws[|ws| - 1]| - 1]
    decreases |ws|
  {
    if |ws| > 1 {
      JoinEnds(ws[1..], sep);
    }
  }

  /** A join of non-empty parts that starts and ends with a character other
      than white space is its own trim. */
  lemma JoinTrim(ws: seq<string>, sep: string)
    requires |ws| >= 1 && forall k :: 0 <= k < |ws| ==> ws[k] != []
    requires !IsWhitespace(ws[0][0]) && !IsWhitespace(ws[|ws| - 1][|ws[|ws| - 1]| - 1])
    ensures Trim(Join(ws, sep)) == Join(ws, sep)
  {
    JoinEnds(ws, sep);
    TrimNoOuterWhitespace(Join(ws, sep));
  }

  /** Joining non-empty parts free of run characters with a one-character run
      and replacing the runs is joining them with the replacement. */
  lemma {:induction false} ReplaceRunsJoin(ws: seq<string>, c: char, inRun: char -> bool, r: char)
    requires |ws| >= 1 && inRun(c)
    requires forall k :: 0 <= k < |ws| ==> ws[k] != []
    requires forall k, i :: 0 <= k < |ws| && 0 <= i < |ws[k]| ==> !inRun(ws[k][i])
    ensures ReplaceRuns(Join(ws, [c]), inRun, r) == Join(ws, [r])
    decreases |ws|
  {
    if |ws| == 1 {
      ReplaceRunsPlain(ws[0], [], inRun, r);
      assert ws[0] + [] == ws[0];
    } else {
      var rest := Join(ws[1..], [c]);
      ReplaceRunsJoin(ws[1..], c, inRun, r);
      JoinEnds(ws[1..], [c]);
      JoinCons(ws, [c]);
      ReplaceRunsPlain(ws[0], [c] + rest, inRun, r);
      ReplaceRunsSingle(c, rest, inRun, r);
      JoinCons(ws, [r]);
    }
  }

  lemma JoinCons(ws: seq<string>, sep: string)
    requires |ws| > 1
    ensures Join(ws, sep) == ws[0] + (sep + Join(ws[1..], sep))
  {
  }

  /** A non-empty run of lower-case ASCII letters and digits. */
  predicate IsLowerWord(w: string) {
    w != [] && forall i :: 0 <= i < |w| ==> ('a' <= w[i] <= 'z') || ('0' <= w[i] <= '9')
  }

  lemma LowerWordsAreLower(ws: seq<string>)
    requires forall k :: 0 <= k < |ws| ==> IsWord(ws[k])
    ensures forall k :: 0 <= k < |ws| ==> IsLowerWord(LowerWords(ws)[k])
  {
    forall k | 0 <= k < |ws| ensures IsLowerWord(LowerWords(ws)[k]) {
      var w := LowerWords(ws)[k];
      forall i | 0 <= i < |w| ensures ('a' <= w[i] <= 'z') || ('0' <= w[i] <= '9') {
        assert w[i] == LowerChar(ws[k][i]);
      }
    }
  }

  // ------------------------------------------ words separated by runs of any length

  /** Skipping the leading run of `a + b`, where `a` is all run characters
      and `b` does not start with one, leaves `b`. */
  lemma {:induction false} SkipRunPast(a: string, b: string, inRun: char -> bool)
    requires forall i :: 0 <= i < |a| ==> inRun(a[i])
    requires b == [] || !inRun(b[0])
    ensures SkipRun(a + b, inRun) == b
    decreases |a|
  {
    if a == [] {
      assert a + b == b;
    } else {
      SkipRunPast(a[1..], b, inRun);
      ConsAppend(a, b);
      SkipRunStep(a[0], a[1..] + b, inRun);
    }
  }

  lemma SkipRunStep(c: char, t: string, inRun: char -> bool)
    requires inRun(c)
    ensures SkipRun([c] + t, inRun) == SkipRun(t, inRun)
  {
    assert ([c] + t)[1..] == t;
  }

  /** A whole run at the front, however long, becomes the one character `r`. */
  lemma ReplaceRunsRun(a: string, b: string, inRun: char -> bool, r: char)
    requires a != [] && forall i :: 0 <= i < |a| ==> inRun(a[i])
    requires b == [] || !inRun(b[0])
    ensures ReplaceRuns(a + b, inRun, r) == [r] + ReplaceRuns(b, inRun, r)
  {
    SkipRunPast(a, b, inRun);
    assert (a + b)[0] == a[0];
  }

  /** `[r]` for a non-empty run, nothing for an empty one. */
  function RunMark(t: string, r: char): (m: string)
    ensures |m| <= 1 && (m == [] <==> t == [])
  {
    if t == [] then [] else [r]
  }

  /** A string made only of run characters becomes its mark. */
  lemma ReplaceRunsAllRun(t: string, inRun: char -> bool, r: char)
    requires forall i :: 0 <= i < |t| ==> inRun(t[i])
    ensures ReplaceRuns(t, inRun, r) == RunMark(t, r)
  {
    if t != [] {
      ReplaceRunsRun(t, [], inRun, r);
      assert t + [] == t;
    }
  }

  /** The words `ws` with the gap `gs[k]` between `ws[k]` and `ws[k + 1]`. */
  function Interleave(ws: seq<string>, gs: seq<string>): (s: string)
    requires |ws| >= 1 && |gs| == |ws| - 1
    ensures |ws| == 1 ==> s == ws[0]
    decreases |ws|
  {
    if |ws| == 1 then ws[0] else ws[0] + gs[0] + Interleave(ws[1..], gs[1..])
  }

  lemma InterleaveCons(ws: seq<string>, gs: seq<string>, tail: string)
    requires |ws| > 1 && |gs| == |ws| - 1
    ensures Interleave(ws, gs) + tail == ws[0] + (gs[0] + (Interleave(ws[1..], gs[1..]) + tail))
  {
  }

  /** An interleaving whose first word is non-empty starts with that word's
      first character. */
  lemma InterleaveHead(ws: seq<string>, gs: seq<string>, tail: string)
    requires |ws| >= 1 && |gs| == |ws| - 1 && ws[0] != []
    ensures Interleave(ws, gs) + tail != [] && (Interleave(ws, gs) + tail)[0] == ws[0][0]
  {
    if |ws| > 1 {
      InterleaveCons(ws, gs, tail);
    }
  }

  lemma Regroup(a: string, b: string, c: string, d: string)
    ensures a + (b + (c + d)) == (a + b + c) + d
  {
  }

  /** Words free of run characters, separated by non-empty runs of any
      length: replacing the runs joins the words with `r`. */
  lemma {:induction false} ReplaceRunsInterleave(ws: seq<string>, gs: seq<string>, tail: string, inRun: char -> bool, r: char)
    requires |ws| >= 1 && |gs| == |ws| - 1
    requires forall k :: 0 <= k < |ws| ==> ws[k] != []
    requires forall k, i :: 0 <= k < |ws| && 0 <= i < |ws[k]| ==> !inRun(ws[k][i])
    requires forall k :: 0 <= k < |gs| ==> gs[k] != []
    requires forall k, i :: 0 <= k < |gs| && 0 <= i < |gs[k]| ==> inRun(gs[k][i])
    ensures ReplaceRuns(Interleave(ws, gs) + tail, inRun, r) == Join(ws, [r]) + ReplaceRuns(tail, inRun, r)
    decreases |ws|
  {
    if |ws| == 1 {
      ReplaceRunsPlain(ws[0], tail, inRun, r);
    } else {
      var rest := Interleave(ws[1..], gs[1..]) + tail;
      ReplaceRunsInterleave(ws[1..], gs[1..], tail, inRun, r);
      InterleaveCons(ws, gs, tail);
      InterleaveHead(ws[1..], gs[1..], tail);
      ReplaceRunsPlain(ws[0], gs[0] + rest, inRun, r);
      ReplaceRunsRun(gs[0], rest, inRun, r);
      JoinCons(ws, [r]);
      Regroup(ws[0], [r], Join(ws[1..], [r]), ReplaceRuns(tail, inRun, r));
    }
  }

  /** The same with a run, possibly empty, before the first word and after
      the last: each of those becomes one `r` when it is there. */
  lemma ReplaceRunsPadded(lead: string, ws: seq<string>, gs: seq<string>, trail: string, inRun: char -> bool, r: char)
    requires |ws| >= 1 && |gs| == |ws| - 1
    requires forall k :: 0 <= k < |ws| ==> ws[k] != []
    requires forall k, i :: 0 <= k < |ws| && 0 <= i < |ws[k]| ==> !inRun(ws[k][i])
    requires forall k :: 0 <= k < |gs| ==> gs[k] != []
    requires forall k, i :: 0 <= k < |gs| && 0 <= i < |gs[k]| ==> inRun(gs[k][i])
    requires forall i :: 0 <= i < |lead| ==> inRun(lead[i])
    requires forall i :: 0 <= i < |trail| ==> inRun(trail[i])
    ensures ReplaceRuns(lead + Interleave(ws, gs) + trail, inRun, r)
         == RunMark(lead, r) + Join(ws, [r]) + RunMark(trail, r)
  {
    var mid := Interleave(ws, gs);
    ReplaceRunsInterleave(ws, gs, trail, inRun, r);
    ReplaceRunsAllRun(trail, inRun, r);
    InterleaveHead(ws, gs, trail);
    ReplaceRunsLead(lead, mid + trail, inRun, r);
    PaddedParts(lead, mid, trail, ReplaceRuns(lead + (mid + trail), inRun, r), RunMark(lead, r), Join(ws, [r]), RunMark(trail, r));
  }

  /** A run, possibly empty, in front of a string that does not start with a
      run character becomes its mark. */
  lemma ReplaceRunsLead(lead: string, m: string, inRun: char -> bool, r: char)
    requires forall i :: 0 <= i < |lead| ==> inRun(lead[i])
    requires m == [] || !inRun(m[0])
    ensures ReplaceRuns(lead + m, inRun, r) == RunMark(lead, r) + ReplaceRuns(m, inRun, r)
  {
    if lead == [] {
      assert lead + m == m;
    } else {
      ReplaceRunsRun(lead, m, inRun, r);
    }
  }

  lemma PaddedParts(lead: string, mid: string, trail: string, out: string, a: string, b: string, c: string)
    requires out == a + (b + c)
    ensures lead + mid + trail == lead + (mid + trail)
    ensures out == a + b + c
  {
  }

  /** Every character of an interleaving comes from a word or from a gap. */
  lemma {:induction false} InterleaveChars(ws: seq<string>, gs: seq<string>, p: char -> bool)
    requires |ws| >= 1 && |gs| == |ws| - 1
    requires forall k, i :: 0 <= k < |ws| && 0 <= i < |ws[k]| ==> p(ws[k][i])
    requires forall k, i :: 0 <= k < |gs| && 0 <= i < |gs[k]| ==> p(gs[k][i])
    ensures forall i :: 0 <= i < |Interleave(ws, gs)| ==> p(Interleave(ws, gs)[i])
    decreases |ws|
  {
    if |ws| > 1 {
      InterleaveChars(ws[1..], gs[1..], p);
      var s := Interleave(ws, gs);
      var rest := Interleave(ws[1..], gs[1..]);
      forall i | 0 <= i < |s| ensures p(s[i]) {
        if i < |ws[0]| {
          assert s[i] == ws[0][i];
        } else if i < |ws[0]| + |gs[0]| {
          assert s[i] == gs[0][i - |ws[0]|];
        } else {
          assert s[i] == rest[i - |ws[0]| - |gs[0]|];
        }
      }
    }
  }

  /** Lower-casing an interleaving whose gaps hold no upper-case letter
      lower-cases the words alone. */
  lemma {:induction false} ToLowerInterleave(ws: seq<string>, gs: seq<string>)
    requires |ws| >= 1 && |gs| == |ws| - 1
    requires forall k, i :: 0 <= k < |gs| && 0 <= i < |gs[k]| ==> !IsUpper(gs[k][i])
    ensures ToLower(Interleave(ws, gs)) == Interleave(LowerWords(ws), gs)
    decreases |ws|
  {
    if |ws| > 1 {
      ToLowerInterleave(ws[1..], gs[1..]);
      ToLowerAppend(ws[0] + gs[0], Interleave(ws[1..], gs[1..]));
      ToLowerAppend(ws[0], gs[0]);
      ToLowerNoUpper(gs[0]);
      assert LowerWords(ws)[1..] == LowerWords(ws[1..]);
    }
  }

  /** Lower-casing words with gaps and ends free of upper-case letters
      lower-cases the words alone. */
  lemma ToLowerPadded(lead: string, ws: seq<string>, gs: seq<string>, trail: string)
    requires |ws| >= 1 && |gs| == |ws| - 1
    requires forall k, i :: 0 <= k < |gs| && 0 <= i < |gs[k]| ==> !IsUpper(gs[k][i])
    requires forall i :: 0 <= i < |lead| ==> !IsUpper(lead[i])
    requires forall i :: 0 <= i < |trail| ==> !IsUpper(trail[i])
    ensures ToLower(lead + Interleave(ws, gs) + trail) == lead + Interleave(LowerWords(ws), gs) + trail
  {
    ToLowerInterleave(ws, gs);
    ToLowerAppend(lead + Interleave(ws, gs), trail);
    ToLowerAppend(lead, Interleave(ws, gs));
    ToLowerNoUpper(lead);
    ToLowerNoUpper(trail);
  }

  function LastChar(s: string): char
    requires s != []
  {
    s[|s| - 1]
  }

  /** An interleaving whose last word is non-empty ends with that word's
      last character. */
  lemma {:induction false} InterleaveLast(ws: seq<string>, gs: seq<string>)
    requires |ws| >= 1 && |gs| == |ws| - 1 && ws[|ws| - 1] != []
    ensures Interleave(ws, gs) != [] && LastChar(Interleave(ws, gs)) == LastChar(ws[|ws| - 1])
    decreases |ws|
  {
    if |ws| > 1 {
      var rest := Interleave(ws[1..], gs[1..]);
      LastOfTail(ws);
      InterleaveLast(ws[1..], gs[1..]);
      LastOfAppend(Interleave(ws, gs), ws[0] + gs[0], rest);
    }
  }

  lemma LastOfTail(ws: seq<string>)
    requires |ws| > 1
    ensures ws[1..][|ws[1..]| - 1] == ws[|ws| - 1]
  {
  }

  lemma LastOfAppend(s: string, a: string, rest: string)
    requires s == a + rest && rest != []
    ensures s != [] && LastChar(s) == LastChar(rest)
  {
  }

  /** An interleaving of non-empty words starts with the first word's first
      character and ends with the last word's last character. */
  lemma InterleaveEnds(ws: seq<string>, gs: seq<string>)
    requires |ws| >= 1 && |gs| == |ws| - 1 && forall k :: 0 <= k < |ws| ==> ws[k] != []
    ensures Interleave(ws, gs) != []
    ensures Interleave(ws, gs)[0] == ws[0][0]
    ensures Interleave(ws, gs)[|Interleave(ws, gs)| - 1] == ws[|ws| - 1][|ws[|ws| - 1]| - 1]
  {
    InterleaveHead(ws, gs, []);
    assert Interleave(ws, gs) + [] == Interleave(ws, gs);
    InterleaveLast(ws, gs);
    assert LastChar(Interleave(ws, gs)) == Interleave(ws, gs)[|Interleave(ws, gs)| - 1];
  }

  /** `ReplaceRunsInterleave` with nothing after the last word. */
  lemma ReplaceRunsInterleaveAlone(ws: seq<string>, gs: seq<string>, inRun: char -> bool, r: char)
    requires |ws| >= 1 && |gs| == |ws| - 1
    requires forall k :: 0 <= k < |ws| ==> ws[k] != []
    requires forall k, i :: 0 <= k < |ws| && 0 <= i < |ws[k]| ==> !inRun(ws[k][i])
    requires forall k :: 0 <= k < |gs| ==> gs[k] != []
    requires forall k, i :: 0 <= k < |gs| && 0 <= i < |gs[k]| ==> inRun(gs[k][i])
    ensures ReplaceRuns(Interleave(ws, gs), inRun, r) == Join(ws, [r])
  {
    ReplaceRunsInterleave(ws, gs, [], inRun, r);
    assert Interleave(ws, gs) + [] == Interleave(ws, gs);
    assert Join(ws, [r]) + [] == Join(ws, [r]);
  }
}
