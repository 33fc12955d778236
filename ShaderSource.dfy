/** Placeholder substitution in shader source text (src/main.cpp, replace_substring
    and replace_buffer_size). Shader sources are strings; the substitution rewrites
    the grid's width and height placeholders into decimal constants before the
    kernels are compiled. */
module ShaderSource {
  import opened Wrappers

  /** Grid dimensions (BUFFER_WIDTH, BUFFER_HEIGHT). */
  const BufferWidth: nat := 1504
  const BufferHeight: nat := 1024

  const WidthPlaceholder: string := "BUFFER_WIDTH"
  const HeightPlaceholder: string := "BUFFER_HEIGHT"

  /** `pat` occurs in `s` starting at position `i`. */
  predicate OccursAt(s: string, pat: string, i: nat)
  {
    i + |pat| <= |s| && s[i..i + |pat|] == pat
  }

  /** `pat` occurs somewhere in `s`. */
  ghost predicate Occurs(s: string, pat: string)
  {
    exists i: nat :: OccursAt(s, pat, i)
  }

  /** No character of `rep` appears in `pat`. */
  predicate Disjoint(rep: string, pat: string)
  {
    forall c :: c in rep ==> c !in pat
  }

  /** std::string::find(pat, from): the least position at or after `from` where `pat`
      occurs, or None for npos (which is also the answer when `from` lies past the end). */
  function Find(s: string, pat: string, from: nat): (r: Option<nat>)
    ensures r.Some? ==> from <= r.value && OccursAt(s, pat, r.value)
    decreases |s| - from
  {
    if from + |pat| > |s| then None
    else if s[from..from + |pat|] == pat then Some(from)
    else Find(s, pat, from + 1)
  }

  /** Find returns the LEAST occurrence at or after `from`, and npos only when there is none. */
  lemma {:induction false} FindIsLeast(s: string, pat: string, from: nat)
    ensures forall j: nat :: from <= j && (Find(s, pat, from).None? || j < Find(s, pat, from).value) ==> !OccursAt(s, pat, j)
    decreases |s| - from
  {
    if from + |pat| <= |s| && s[from..from + |pat|] != pat {
      FindIsLeast(s, pat, from + 1);
    }
  }

  /** std::string::replace(pos, len, rep) for a range that lies inside the string. */
  function Splice(s: string, pos: nat, len: nat, rep: string): (r: string)
    requires pos + len <= |s|
    ensures |r| == |s| - len + |rep|
  {
    s[..pos] + rep + s[pos + len..]
  }

  /** The three parts of a spliced string: the text before `pos`, the replacement, and
      the text after the replaced range. */
  lemma SpliceParts(s: string, pos: nat, len: nat, rep: string)
    requires pos + len <= |s|
    ensures Splice(s, pos, len, rep)[..pos] == s[..pos]
    ensures Splice(s, pos, len, rep)[pos..pos + |rep|] == rep
    ensures Splice(s, pos, len, rep)[pos + |rep|..] == s[pos + len..]
    ensures Splice(s, pos, len, rep)[..pos + |rep|] == s[..pos] + rep
  {
  }

  /** The condition under which replace_substring terminates for every input: a
      non-empty pattern and a replacement shorter than twice the pattern. */
  predicate Terminates(pat: string, rep: string)
  {
    |rep| < 2 * |pat|
  }

  /** What is left to search: positions from `index` to the end of `s` inclusive. */
  function Remaining(s: string, index: nat): nat
  {
    if index <= |s| then |s| - index + 1 else 0
  }

  /** The loop of replace_substring as written, from search position `index`: find the
      next occurrence, splice the replacement in, and resume the search at the found
      position plus the PATTERN's length, measured in the modified string. */
  function ReplaceFrom(s: string, pat: string, rep: string, index: nat): string
    requires Terminates(pat, rep)
    decreases Remaining(s, index)
  {
    match Find(s, pat, index)
    case None => s
    case Some(i) => ReplaceFrom(Splice(s, i, |pat|, rep), pat, rep, i + |pat|)
  }

  /** replace_substring: rewrites `input` in place; here the final string is returned. */
  method ReplaceSubstring(input: string, substring: string, replacement: string) returns (output: string)
    requires Terminates(substring, replacement)
    ensures output == ReplaceFrom(input, substring, replacement, 0)
  {
    output := input;
    var index: nat := 0;
    var substringLength: nat := |substring|;
    while true
      invariant ReplaceFrom(output, substring, replacement, index) == ReplaceFrom(input, substring, replacement, 0)
      decreases Remaining(output, index)
    {
      var found := Find(output, substring, index);
      if found.None? {
        return;
      }
      ReplaceFromStep(output, substring, replacement, index, found.value);
      index := found.value;
      output := Splice(output, index, substringLength, replacement);
      index := index + substringLength;
    }
  }

  /** The text before the search position is never touched. */
  lemma {:induction false} ReplaceKeepsPrefix(s: string, pat: string, rep: string, index: nat, k: nat)
    requires Terminates(pat, rep)
    requires k <= index && k <= |s|
    ensures k <= |ReplaceFrom(s, pat, rep, index)|
    ensures ReplaceFrom(s, pat, rep, index)[..k] == s[..k]
    decreases Remaining(s, index)
  {
    match Find(s, pat, index)
    case None =>
    case Some(i) =>
      var t := FirstRound(s, pat, rep, index, i);
      assert Remaining(t, i + |pat|) < Remaining(s, index);
      assert t[..k] == s[..k] by {
        assert t[..k] == t[..i + |rep|][..k] == (s[..i] + rep)[..k] == s[..i][..k];
      }
      ReplaceKeepsPrefix(t, pat, rep, i + |pat|, k);
  }

  /** Every splice moves the length by |rep| - |pat|, so the length moves in that
      direction as soon as one occurrence is found. */
  lemma {:induction false} ReplaceLength(s: string, pat: string, rep: string, index: nat)
    requires Terminates(pat, rep)
    ensures |rep| <= |pat| ==> |ReplaceFrom(s, pat, rep, index)| <= |s|
    ensures |rep| >= |pat| ==> |ReplaceFrom(s, pat, rep, index)| >= |s|
    ensures Find(s, pat, index).Some? && |rep| < |pat| ==> |ReplaceFrom(s, pat, rep, index)| < |s|
    ensures Find(s, pat, index).Some? && |rep| > |pat| ==> |ReplaceFrom(s, pat, rep, index)| > |s|
    decreases Remaining(s, index)
  {
    match Find(s, pat, index)
    case None =>
    case Some(i) =>
      ReplaceFromStep(s, pat, rep, index, i);
      ReplaceLength(Splice(s, i, |pat|, rep), pat, rep, i + |pat|);
  }

  /** One round of the loop: splice at the occurrence found and resume after the pattern. */
  lemma ReplaceFromStep(s: string, pat: string, rep: string, index: nat, i: nat)
    requires Terminates(pat, rep) && Find(s, pat, index) == Some(i)
    ensures index <= i && i + |pat| <= |s|
    ensures Remaining(Splice(s, i, |pat|, rep), i + |pat|) < Remaining(s, index)
    ensures ReplaceFrom(s, pat, rep, index) == ReplaceFrom(Splice(s, i, |pat|, rep), pat, rep, i + |pat|)
  {
  }

  /** When the replacement is not longer than the pattern, the first replacement
      survives all later splices. */
  lemma FirstReplacementKept(s: string, pat: string, rep: string, index: nat, i: nat)
    requires Terminates(pat, rep) && |rep| <= |pat|
    requires Find(s, pat, index) == Some(i)
    ensures i + |rep| <= |ReplaceFrom(s, pat, rep, index)|
    ensures ReplaceFrom(s, pat, rep, index)[..i + |rep|] == s[..i] + rep
  {
    var t := FirstRound(s, pat, rep, index, i);
    KeptAfterFirstRound(s, pat, rep, index, i, t);
  }

  lemma KeptAfterFirstRound(s: string, pat: string, rep: string, index: nat, i: nat, t: string)
    requires Terminates(pat, rep) && |rep| <= |pat|
    requires i <= |s| && i + |rep| <= |t| && t[..i + |rep|] == s[..i] + rep
    requires ReplaceFrom(s, pat, rep, index) == ReplaceFrom(t, pat, rep, i + |pat|)
    ensures i + |rep| <= |ReplaceFrom(s, pat, rep, index)|
    ensures ReplaceFrom(s, pat, rep, index)[..i + |rep|] == s[..i] + rep
  {
    ReplaceKeepsPrefix(t, pat, rep, i + |pat|, i + |rep|);
    assert ReplaceFrom(t, pat, rep, i + |pat|)[..i + |rep|] == t[..i + |rep|];
  }

  /** The string after the first round of the loop, described by the facts
      FirstReplacementKept needs. */
  lemma FirstRound(s: string, pat: string, rep: string, index: nat, i: nat) returns (t: string)
    requires Terminates(pat, rep) && Find(s, pat, index) == Some(i)
    ensures index <= i && i + |pat| <= |s| && |t| == |s| - |pat| + |rep|
    ensures t[..i + |rep|] == s[..i] + rep
    ensures ReplaceFrom(s, pat, rep, index) == ReplaceFrom(t, pat, rep, i + |pat|)
  {
    ReplaceFromStep(s, pat, rep, index, i);
    t := Splice(s, i, |pat|, rep);
    SpliceParts(s, i, |pat|, rep);
  }

  /** replace_substring leaves the string unchanged exactly when the pattern does not
      occur in it (for a replacement that differs from the pattern). */
  lemma UnchangedIffNoOccurrence(s: string, pat: string, rep: string)
    requires Terminates(pat, rep) && rep != pat
    ensures ReplaceFrom(s, pat, rep, 0) == s <==> !Occurs(s, pat)
  {
    FindIsLeast(s, pat, 0);
    match Find(s, pat, 0)
    case None =>
      assert !Occurs(s, pat);
    case Some(i) =>
      assert Occurs(s, pat);
      ReplaceLength(s, pat, rep, 0);
      if |rep| == |pat| {
        FirstReplacementKept(s, pat, rep, 0, i);
        var r := ReplaceFrom(s, pat, rep, 0);
        assert r[..i + |rep|][i..] == rep;
        assert s[..i + |pat|][i..] == pat;
      }
  }

  /** Once the search position is past the end of a splice region, a search from `k`
      never sees a placeholder that overlaps inserted text: the text before `k` holds no
      occurrence of `pat`. */
  ghost predicate Clean(t: string, pat: string, k: nat)
  {
    forall j: nat :: j < k ==> !OccursAt(t, pat, j)
  }

  /** One splice keeps "no occurrence before the search position", for any new search
      position inside or at the end of the inserted replacement, when the replacement
      shares no character with the pattern. */
  lemma SpliceKeepsClean(t: string, pat: string, rep: string, index: nat, i: nat, k: nat)
    requires |pat| > 0 && |rep| > 0 && Disjoint(rep, pat)
    requires Clean(t, pat, index) && Find(t, pat, index) == Some(i)
    requires k <= i + |rep|
    ensures Clean(Splice(t, i, |pat|, rep), pat, k)
  {
    assert OccursAt(t, pat, i);
    FindIsLeast(t, pat, index);
    var u := Splice(t, i, |pat|, rep);
    SpliceParts(t, i, |pat|, rep);
    forall j: nat | j < k
      ensures !OccursAt(u, pat, j)
    {
      if j + |pat| <= |u| {
        if j + |pat| <= i {
          assert u[j..j + |pat|] == u[..i][j..j + |pat|] == t[..i][j..j + |pat|] == t[j..j + |pat|];
          assert !OccursAt(t, pat, j);
        } else {
          var p := if j < i then i else j;
          assert u[p] == rep[p - i] by {
            assert u[i..i + |rep|][p - i] == u[p];
          }
          assert u[j..j + |pat|][p - j] == u[p];
          assert rep[p - i] in rep;
          assert pat[p - j] in pat;
        }
      }
    }
  }

  /** A splice whose inserted text is non-empty and shares no character with `q` creates
      no occurrence of `q`: every occurrence afterwards lies wholly before or wholly after
      the inserted text, where it was already present. */
  lemma SpliceIntroducesNoOccurrence(s: string, i: nat, len: nat, rep: string, q: string)
    requires i + len <= |s| && |rep| > 0 && |q| > 0 && Disjoint(rep, q)
    ensures forall j: nat :: j + |q| <= i && OccursAt(Splice(s, i, len, rep), q, j) ==> OccursAt(s, q, j)
    ensures forall j: nat :: i + |rep| <= j && OccursAt(Splice(s, i, len, rep), q, j) ==> OccursAt(s, q, j - |rep| + len)
    ensures forall j: nat :: i < j + |q| && j < i + |rep| ==> !OccursAt(Splice(s, i, len, rep), q, j)
    ensures Occurs(Splice(s, i, len, rep), q) ==> Occurs(s, q)
  {
    SplicePrefixOccurrences(s, i, len, rep, q);
    SpliceSuffixOccurrences(s, i, len, rep, q);
    SpliceNoStraddlingOccurrence(s, i, len, rep, q);
    if Occurs(Splice(s, i, len, rep), q) {
      var j: nat :| OccursAt(Splice(s, i, len, rep), q, j);
      if j + |q| <= i {
        assert OccursAt(s, q, j);
      } else {
        assert i + |rep| <= j;
        assert OccursAt(s, q, j - |rep| + len);
      }
    }
  }

  /** An occurrence wholly before the inserted text was there before the splice. */
  lemma SplicePrefixOccurrences(s: string, i: nat, len: nat, rep: string, q: string)
    requires i + len <= |s|
    ensures forall j: nat :: j + |q| <= i && OccursAt(Splice(s, i, len, rep), q, j) ==> OccursAt(s, q, j)
  {
    var u := Splice(s, i, len, rep);
    SpliceParts(s, i, len, rep);
    forall j: nat | j + |q| <= i
      ensures OccursAt(u, q, j) ==> OccursAt(s, q, j)
    {
      if j + |q| <= |u| {
        assert u[j..j + |q|] == u[..i][j..j + |q|] == s[..i][j..j + |q|];
      }
    }
  }

  /** An occurrence wholly after the inserted text was there before the splice, shifted. */
  lemma SpliceSuffixOccurrences(s: string, i: nat, len: nat, rep: string, q: string)
    requires i + len <= |s|
    ensures forall j: nat :: i + |rep| <= j && OccursAt(Splice(s, i, len, rep), q, j) ==> OccursAt(s, q, j - |rep| + len)
  {
    var u := Splice(s, i, len, rep);
    SpliceParts(s, i, len, rep);
    forall j: nat | i + |rep| <= j
      ensures OccursAt(u, q, j) ==> OccursAt(s, q, j - |rep| + len)
    {
      if j + |q| <= |u| {
        var d := j - i - |rep|;
        assert u[j..j + |q|] == u[i + |rep|..][d..d + |q|] == s[i + len..][d..d + |q|];
      }
    }
  }

  /** No occurrence of `q` overlaps inserted text that shares no character with it. */
  lemma SpliceNoStraddlingOccurrence(s: string, i: nat, len: nat, rep: string, q: string)
    requires i + len <= |s| && |rep| > 0 && |q| > 0 && Disjoint(rep, q)
    ensures forall j: nat :: i < j + |q| && j < i + |rep| ==> !OccursAt(Splice(s, i, len, rep), q, j)
  {
    var u := Splice(s, i, len, rep);
    SpliceParts(s, i, len, rep);
    forall j: nat | i < j + |q| && j < i + |rep|
      ensures !OccursAt(u, q, j)
    {
      if j + |q| <= |u| {
        var p := if j < i then i else j;
        assert u[j..j + |q|][p - j] == u[p] == u[i..i + |rep|][p - i] == rep[p - i];
        assert rep[p - i] in rep;
        assert q[p - j] in q;
      }
    }
  }

  /** The number of positions in [lo, hi) where `q` occurs in `s`. */
  function CountIn(s: string, q: string, lo: nat, hi: nat): (r: nat)
    requires lo <= hi
    decreases hi - lo
  {
    if lo == hi then 0 else CountIn(s, q, lo, hi - 1) + (if OccursAt(s, q, hi - 1) then 1 else 0)
  }

  /** The number of occurrences of `q` in `s`, overlapping ones included. */
  function Count(s: string, q: string): nat
  {
    CountIn(s, q, 0, |s| + 1)
  }

  lemma {:induction false} CountInSplit(s: string, q: string, lo: nat, mid: nat, hi: nat)
    requires lo <= mid <= hi
    ensures CountIn(s, q, lo, hi) == CountIn(s, q, lo, mid) + CountIn(s, q, mid, hi)
    decreases hi - mid
  {
    if mid < hi {
      CountInSplit(s, q, lo, mid, hi - 1);
    }
  }

  /** Counting through a map from positions of `t` to positions of `s` that sends every
      occurrence in `t` to an occurrence in `s`. */
  lemma {:induction false} CountInMapped(t: string, s: string, q: string, b: nat, a: nat, n: nat)
    requires forall j: nat :: b <= j < b + n && OccursAt(t, q, j) ==> OccursAt(s, q, j - b + a)
    ensures CountIn(t, q, b, b + n) <= CountIn(s, q, a, a + n)
    decreases n
  {
    if n > 0 {
      CountInMapped(t, s, q, b, a, n - 1);
      var j := b + n - 1;
      assert OccursAt(t, q, j) ==> OccursAt(s, q, j - b + a);
    }
  }

  lemma {:induction false} CountInNone(t: string, q: string, lo: nat, hi: nat)
    requires lo <= hi
    requires forall j: nat :: lo <= j < hi ==> !OccursAt(t, q, j)
    ensures CountIn(t, q, lo, hi) == 0
    decreases hi - lo
  {
    if lo < hi {
      CountInNone(t, q, lo, hi - 1);
    }
  }

  lemma {:induction false} CountInPositive(s: string, q: string, lo: nat, hi: nat)
    requires lo <= hi
    ensures CountIn(s, q, lo, hi) > 0 <==> exists j: nat :: lo <= j < hi && OccursAt(s, q, j)
    decreases hi - lo
  {
    if lo < hi {
      CountInPositive(s, q, lo, hi - 1);
      if OccursAt(s, q, hi - 1) {
        assert lo <= hi - 1 < hi;
      }
    }
  }

  /** The count is positive exactly when the pattern occurs. */
  lemma CountPositiveIff(s: string, q: string)
    ensures Count(s, q) > 0 <==> Occurs(s, q)
  {
    CountInPositive(s, q, 0, |s| + 1);
  }

  /** A splice of non-empty text sharing no character with `q` never increases the
      number of occurrences of `q`: the occurrences before the inserted text are the old
      ones, none overlaps it, and those after it are the old ones shifted. */
  lemma SpliceCount(s: string, i: nat, len: nat, rep: string, q: string)
    requires i + len <= |s| && |rep| > 0 && |q| > 0 && Disjoint(rep, q)
    ensures Count(Splice(s, i, len, rep), q) <= Count(s, q)
  {
    var u := Splice(s, i, len, rep);
    var a: nat := if i + 1 >= |q| then i + 1 - |q| else 0;
    var b: nat := i + |rep|;
    var n: nat := |s| - len - i + 1;
    assert |u| + 1 == b + n;
    CountInSplit(u, q, 0, a, b + n);
    CountInSplit(u, q, a, b, b + n);
    CountInSplit(s, q, 0, a, |s| + 1);
    CountInSplit(s, q, a, i + len, |s| + 1);
    SplicePrefixCount(s, i, len, rep, q, a);
    assert CountIn(u, q, a, b) == 0 by {
      SpliceNoStraddlingOccurrence(s, i, len, rep, q);
      CountInNone(u, q, a, b);
    }
    SpliceSuffixCount(s, i, len, rep, q);
  }

  /** The occurrences that end before the inserted text are old occurrences. */
  lemma SplicePrefixCount(s: string, i: nat, len: nat, rep: string, q: string, a: nat)
    requires i + len <= |s| && (a == 0 || a + |q| <= i + 1)
    ensures CountIn(Splice(s, i, len, rep), q, 0, a) <= CountIn(s, q, 0, a)
  {
    var u := Splice(s, i, len, rep);
    SplicePrefixOccurrences(s, i, len, rep, q);
    forall j: nat | 0 <= j < 0 + a && OccursAt(u, q, j)
      ensures OccursAt(s, q, j - 0 + 0)
    {
      assert j + |q| <= i;
    }
    CountInMapped(u, s, q, 0, 0, a);
  }

  /** The occurrences after the inserted text are old occurrences, shifted. */
  lemma SpliceSuffixCount(s: string, i: nat, len: nat, rep: string, q: string)
    requires i + len <= |s|
    ensures CountIn(Splice(s, i, len, rep), q, i + |rep|, |Splice(s, i, len, rep)| + 1) <= CountIn(s, q, i + len, |s| + 1)
  {
    var u := Splice(s, i, len, rep);
    var b: nat := i + |rep|;
    var c: nat := i + len;
    var n: nat := |s| + 1 - c;
    SpliceSuffixOccurrences(s, i, len, rep, q);
    forall j: nat | b <= j < b + n && OccursAt(u, q, j)
      ensures OccursAt(s, q, j - b + c)
    {
      assert j - b + c == j - |rep| + len;
    }
    CountInMapped(u, s, q, b, c, n);
  }

  /** The loop as written creates no occurrence of a pattern `q` that shares no character
      with the (non-empty) replacement: the number of occurrences of `q` never grows. */
  lemma {:induction false} ReplaceFromIntroducesNoOccurrence(s: string, pat: string, rep: string, index: nat, q: string)
    requires Terminates(pat, rep) && |rep| > 0 && |q| > 0 && Disjoint(rep, q)
    ensures Count(ReplaceFrom(s, pat, rep, index), q) <= Count(s, q)
    ensures Occurs(ReplaceFrom(s, pat, rep, index), q) ==> Occurs(s, q)
    decreases Remaining(s, index)
  {
    match Find(s, pat, index)
    case None =>
    case Some(i) =>
      SpliceIntroducesNoOccurrence(s, i, |pat|, rep, q);
      SpliceCount(s, i, |pat|, rep, q);
      ReplaceFromIntroducesNoOccurrence(Splice(s, i, |pat|, rep), pat, rep, i + |pat|, q);
  }

  /** With a replacement that is at least as long as the pattern and shares no character
      with it, replace_substring as written leaves no occurrence of the pattern. */
  lemma {:induction false} ReplaceFromLeavesNoOccurrence(s: string, pat: string, rep: string, index: nat)
    requires Terminates(pat, rep) && |pat| <= |rep| && Disjoint(rep, pat)
    requires Clean(s, pat, index)
    ensures !Occurs(ReplaceFrom(s, pat, rep, index), pat)
    decreases Remaining(s, index)
  {
    match Find(s, pat, index)
    case None =>
      assert ReplaceFrom(s, pat, rep, index) == s;
      FindIsLeast(s, pat, index);
    case Some(i) =>
      ReplaceFromStep(s, pat, rep, index, i);
      var t := Splice(s, i, |pat|, rep);
      SpliceKeepsClean(s, pat, rep, index, i, i + |pat|);
      ReplaceFromLeavesNoOccurrence(t, pat, rep, i + |pat|);
  }

  /** A LONGER replacement that shares no character with the pattern is complete. */
  lemma LongReplacementIsComplete(s: string, pat: string, rep: string)
    requires Terminates(pat, rep) && |pat| <= |rep| && Disjoint(rep, pat)
    ensures !Occurs(ReplaceFrom(s, pat, rep, 0), pat)
  {
    ReplaceFromLeavesNoOccurrence(s, pat, rep, 0);
  }

  /** A SHORTER replacement is not: two adjacent width placeholders keep the second,
      because the search resumes 12 characters after the start of the 4-character "1504". */
  lemma AdjacentPlaceholderSurvives()
    ensures ReplaceFrom(WidthPlaceholder + WidthPlaceholder, WidthPlaceholder, "1504", 0)
         == "1504" + WidthPlaceholder
    ensures Occurs(ReplaceFrom(WidthPlaceholder + WidthPlaceholder, WidthPlaceholder, "1504", 0), WidthPlaceholder)
  {
    var s := WidthPlaceholder + WidthPlaceholder;
    assert OccursAt(s, WidthPlaceholder, 0) by {
      assert s[..12] == WidthPlaceholder;
    }
    assert Find(s, WidthPlaceholder, 0) == Some(0);
    var t := Splice(s, 0, 12, "1504");
    assert t == "1504" + WidthPlaceholder;
    assert Find(t, WidthPlaceholder, 12) == None;
    assert OccursAt(t, WidthPlaceholder, 4) by {
      assert t[4..16] == WidthPlaceholder;
    }
  }

  /** The intended loop: resume the search after the inserted replacement. It terminates
      for every non-empty pattern. */
  function ReplaceAllFrom(s: string, pat: string, rep: string, index: nat): string
    requires |pat| > 0
    decreases Remaining(s, index)
  {
    match Find(s, pat, index)
    case None => s
    case Some(i) => ReplaceAllFrom(Splice(s, i, |pat|, rep), pat, rep, i + |rep|)
  }

  lemma {:induction false} ReplaceAllFromLeavesNoOccurrence(s: string, pat: string, rep: string, index: nat)
    requires |pat| > 0 && |rep| > 0 && Disjoint(rep, pat)
    requires Clean(s, pat, index)
    ensures !Occurs(ReplaceAllFrom(s, pat, rep, index), pat)
    decreases Remaining(s, index)
  {
    match Find(s, pat, index)
    case None =>
      FindIsLeast(s, pat, index);
      assert forall j: nat :: !OccursAt(s, pat, j);
    case Some(i) =>
      SpliceKeepsClean(s, pat, rep, index, i, i + |rep|);
      ReplaceAllFromLeavesNoOccurrence(Splice(s, i, |pat|, rep), pat, rep, i + |rep|);
  }

  /** The corrected loop creates no occurrence of a pattern `q` that shares no character
      with the (non-empty) replacement: the number of occurrences of `q` never grows. */
  lemma {:induction false} ReplaceAllFromIntroducesNoOccurrence(s: string, pat: string, rep: string, index: nat, q: string)
    requires |pat| > 0 && |rep| > 0 && |q| > 0 && Disjoint(rep, q)
    ensures Count(ReplaceAllFrom(s, pat, rep, index), q) <= Count(s, q)
    ensures Occurs(ReplaceAllFrom(s, pat, rep, index), q) ==> Occurs(s, q)
    decreases Remaining(s, index)
  {
    match Find(s, pat, index)
    case None =>
    case Some(i) =>
      SpliceIntroducesNoOccurrence(s, i, |pat|, rep, q);
      SpliceCount(s, i, |pat|, rep, q);
      ReplaceAllFromIntroducesNoOccurrence(Splice(s, i, |pat|, rep), pat, rep, i + |rep|, q);
  }

  /** The corrected substitution removes every occurrence of the pattern whenever the
      replacement is non-empty and shares no character with it, whatever its length. */
  lemma ReplaceAllIsComplete(s: string, pat: string, rep: string)
    requires |pat| > 0 && |rep| > 0 && Disjoint(rep, pat)
    ensures !Occurs(ReplaceAllFrom(s, pat, rep, 0), pat)
  {
    ReplaceAllFromLeavesNoOccurrence(s, pat, rep, 0);
  }

  /** The corrected loop handles the adjacent placeholders that the loop as written misses. */
  lemma AdjacentPlaceholdersReplacedWhenCorrected()
    ensures ReplaceAllFrom(WidthPlaceholder + WidthPlaceholder, WidthPlaceholder, "1504", 0) == "15041504"
  {
    var s := WidthPlaceholder + WidthPlaceholder;
    assert OccursAt(s, WidthPlaceholder, 0) by {
      assert s[..12] == WidthPlaceholder;
    }
    assert Find(s, WidthPlaceholder, 0) == Some(0);
    var t := Splice(s, 0, 12, "1504");
    assert t == "1504" + WidthPlaceholder;
    assert OccursAt(t, WidthPlaceholder, 4) by {
      assert t[4..16] == WidthPlaceholder;
    }
    assert Find(t, WidthPlaceholder, 4) == Some(4);
    var u := Splice(t, 4, 12, "1504");
    assert u == "15041504";
    assert Find(u, WidthPlaceholder, 8) == None;
    assert ReplaceAllFrom(u, WidthPlaceholder, "1504", 8) == u;
    assert ReplaceAllFrom(t, WidthPlaceholder, "1504", 4) == u;
  }

  /** std::to_string for a non-negative integer: its decimal digits, most significant first. */
  function Decimal(n: nat): (r: string)
    ensures |r| > 0
    ensures forall c :: c in r ==> '0' <= c <= '9'
    ensures forall i :: 0 <= i < |r| ==> '0' <= r[i] <= '9'
  {
    if n < 10 then [DigitChar(n)] else Decimal(n / 10) + [DigitChar(n % 10)]
  }

  function DigitChar(d: nat): (c: char)
    requires d < 10
    ensures '0' <= c <= '9'
  {
    ('0' as int + d) as char
  }

  /** The number a string of decimal digits denotes, most significant digit first. */
  function DigitsValue(s: string): nat
    requires forall i :: 0 <= i < |s| ==> '0' <= s[i] <= '9'
  {
    if s == [] then 0 else 10 * DigitsValue(s[..|s| - 1]) + (s[|s| - 1] as int - '0' as int)
  }

  /** std::to_string gives the decimal representation of its argument: its digits denote
      `n`, and there is no leading zero except in "0" itself. */
  lemma {:induction false} DecimalDenotes(n: nat)
    ensures DigitsValue(Decimal(n)) == n
    ensures n > 0 ==> Decimal(n)[0] != '0'
    ensures n == 0 ==> Decimal(n) == "0"
  {
    if n >= 10 {
      DecimalDenotes(n / 10);
      var r := Decimal(n);
      assert r[..|r| - 1] == Decimal(n / 10);
    }
  }

  /** The strings that replace the placeholders. */
  lemma ReplacementTexts()
    ensures Decimal(BufferWidth) == "1504" && Decimal(BufferHeight) == "1024"
  {
  }

  /** The digits of a decimal number never appear in a placeholder, so a replacement can
      never form or complete a placeholder. */
  lemma DecimalDisjointFromPlaceholders(n: nat)
    ensures Disjoint(Decimal(n), WidthPlaceholder) && Disjoint(Decimal(n), HeightPlaceholder)
  {
  }

  /** replace_buffer_size: width placeholder first, then height placeholder. */
  method ReplaceBufferSize(input: string) returns (output: string)
    ensures output == ReplaceFrom(ReplaceFrom(input, WidthPlaceholder, "1504", 0), HeightPlaceholder, "1024", 0)
    ensures output == input <==> !Occurs(input, WidthPlaceholder) && !Occurs(input, HeightPlaceholder)
  {
    ReplacementTexts();
    var width := ReplaceSubstring(input, WidthPlaceholder, Decimal(BufferWidth));
    output := ReplaceSubstring(width, HeightPlaceholder, Decimal(BufferHeight));
    BufferSizeUnchangedIff(input);
  }

  /** The two passes leave a shader source unchanged exactly when it contains neither
      placeholder. */
  lemma BufferSizeUnchangedIff(s: string)
    ensures var w := ReplaceFrom(s, WidthPlaceholder, "1504", 0);
            ReplaceFrom(w, HeightPlaceholder, "1024", 0) == s
            <==> !Occurs(s, WidthPlaceholder) && !Occurs(s, HeightPlaceholder)
  {
    var w := ReplaceFrom(s, WidthPlaceholder, "1504", 0);
    var h := ReplaceFrom(w, HeightPlaceholder, "1024", 0);
    UnchangedIffNoOccurrence(s, WidthPlaceholder, "1504");
    UnchangedIffNoOccurrence(w, HeightPlaceholder, "1024");
    ReplaceLength(w, HeightPlaceholder, "1024", 0);
    if Occurs(s, WidthPlaceholder) {
      var i :| OccursAt(s, WidthPlaceholder, i);
      assert Find(s, WidthPlaceholder, 0).Some?;
      ReplaceLength(s, WidthPlaceholder, "1504", 0);
      assert |h| <= |w| < |s|;
    }
  }

  /** The height pass sees no more height placeholders than the original source holds, and
      the height pass leaves no more width placeholders than the width pass left: the
      inserted numbers never form a placeholder. */
  lemma PassesDoNotInteract(s: string)
    ensures Count(ReplaceFrom(s, WidthPlaceholder, "1504", 0), HeightPlaceholder) <= Count(s, HeightPlaceholder)
    ensures var w := ReplaceFrom(s, WidthPlaceholder, "1504", 0);
            Count(ReplaceFrom(w, HeightPlaceholder, "1024", 0), WidthPlaceholder) <= Count(w, WidthPlaceholder)
    ensures Occurs(ReplaceFrom(s, WidthPlaceholder, "1504", 0), HeightPlaceholder) ==> Occurs(s, HeightPlaceholder)
    ensures var w := ReplaceFrom(s, WidthPlaceholder, "1504", 0);
            Occurs(ReplaceFrom(w, HeightPlaceholder, "1024", 0), WidthPlaceholder) ==> Occurs(w, WidthPlaceholder)
  {
    ReplacementTexts();
    DecimalDisjointFromPlaceholders(BufferWidth);
    DecimalDisjointFromPlaceholders(BufferHeight);
    ReplaceFromIntroducesNoOccurrence(s, WidthPlaceholder, "1504", 0, HeightPlaceholder);
    var w := ReplaceFrom(s, WidthPlaceholder, "1504", 0);
    ReplaceFromIntroducesNoOccurrence(w, HeightPlaceholder, "1024", 0, WidthPlaceholder);
  }

  /** The intended replace_buffer_size, built on the corrected loop. */
  function ReplaceBufferSizeIntended(s: string): string
  {
    ReplaceAllFrom(ReplaceAllFrom(s, WidthPlaceholder, Decimal(BufferWidth), 0), HeightPlaceholder, Decimal(BufferHeight), 0)
  }

  /** The intended substitution leaves neither placeholder in any shader source. */
  lemma IntendedBufferSizeIsComplete(s: string)
    ensures !Occurs(ReplaceBufferSizeIntended(s), WidthPlaceholder)
    ensures !Occurs(ReplaceBufferSizeIntended(s), HeightPlaceholder)
  {
    DecimalDisjointFromPlaceholders(BufferWidth);
    DecimalDisjointFromPlaceholders(BufferHeight);
    var w := ReplaceAllFrom(s, WidthPlaceholder, Decimal(BufferWidth), 0);
    ReplaceAllIsComplete(s, WidthPlaceholder, Decimal(BufferWidth));
    ReplaceAllIsComplete(w, HeightPlaceholder, Decimal(BufferHeight));
    ReplaceAllFromIntroducesNoOccurrence(w, HeightPlaceholder, Decimal(BufferHeight), 0, WidthPlaceholder);
  }

}
