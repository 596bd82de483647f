/**
 The manifest of the mutation runner (scripts/check_pin_credential_mutations.py): edits that replace
 the one occurrence of a text, and the check that none was left applied.
 */
module Manifest {
  import opened Bytes

  /** One manifest entry: an edit of one file. */
  datatype Edit = Edit(id: string, file: string, find: Bytes, replace: Bytes)

  /** `bytes.count`: occurrences that do not overlap, from the left. */
  function Count(text: Bytes, find: Bytes): nat
    decreases |text|
  {
    if find == [] then |text| + 1
    else if |text| < |find| then 0
    else if find <= text then 1 + Count(text[|find|..], find)
    else Count(text[1..], find)
  }

  /** `bytes.replace`. */
  function ReplaceAll(text: Bytes, find: Bytes, replace: Bytes): Bytes
    decreases |text|
  {
    if find == [] then replace + if text == [] then [] else [text[0]] + ReplaceAll(text[1..], find, replace)
    else if |text| < |find| then text
    else if find <= text then replace + ReplaceAll(text[|find|..], find, replace)
    else [text[0]] + ReplaceAll(text[1..], find, replace)
  }

  /** `find in text`. */
  ghost predicate Contains(text: Bytes, find: Bytes) {
    exists i :: 0 <= i <= |text| - |find| && find <= text[i..]
  }

  /** `applied_shape` is not None. */
  ghost predicate AppliedShape(m: Edit, text: Bytes) {
    Contains(m.replace, m.find) && Contains(text, m.replace)
  }

  /** `check_manifest` reports the entry on this text. */
  ghost predicate Reported(m: Edit, text: Bytes) {
    Count(text, m.find) != 1 || AppliedShape(m, text)
  }

  /** `undetectable` lists the entry for this text. */
  ghost predicate Blind(m: Edit, text: Bytes) {
    var mutated := ReplaceAll(text, m.find, m.replace);
    Count(text, m.find) == 1 && Count(mutated, m.find) == 1 && !AppliedShape(m, mutated)
  }

  lemma {:induction false} ReplacementIsThere(text: Bytes, find: Bytes, replace: Bytes)
    requires Count(text, find) >= 1
    ensures Contains(ReplaceAll(text, find, replace), replace)
    decreases |text|
  {
    var out := ReplaceAll(text, find, replace);
    if find == [] || find <= text {
      assert out[0..] == out && replace <= out[0..];
    } else {
      ReplacementIsThere(text[1..], find, replace);
      var rest := ReplaceAll(text[1..], find, replace);
      var i :| 0 <= i <= |rest| - |replace| && replace <= rest[i..];
      assert out[i + 1..] == rest[i..];
    }
  }

  // ---------------------------------------------------------------- what the manifest check cannot see

  predicate OccursAt(text: Bytes, find: Bytes, k: nat) {
    k + |find| <= |text| && text[k..k + |find|] == find
  }

  /** No occurrence begins before `k`. */
  ghost predicate ClearTo(text: Bytes, find: Bytes, k: nat) {
    forall j: nat :: j < k ==> !OccursAt(text, find, j)
  }

  /** Every occurrence ends by `n`. */
  ghost predicate Within(text: Bytes, find: Bytes, n: nat) {
    forall j: nat :: OccursAt(text, find, j) ==> j + |find| <= n
  }

  ghost predicate Absent(text: Bytes, find: Bytes) {
    forall j: nat :: !OccursAt(text, find, j)
  }

  /** Where the first occurrence begins. */
  function FirstAt(text: Bytes, find: Bytes): (k: nat)
    requires find != [] && Count(text, find) >= 1
    ensures k + |find| <= |text|
    decreases |text|
  {
    if find <= text then 0 else 1 + FirstAt(text[1..], find)
  }

  lemma {:induction false} NoneBefore(text: Bytes, find: Bytes, j: nat)
    requires find != [] && Count(text, find) >= 1 && j < FirstAt(text, find)
    ensures !OccursAt(text, find, j)
    decreases |text|
  {
    if j > 0 {
      NoneBefore(text[1..], find, j - 1);
      OccursOn(text, find, 1, j - 1);
    }
  }

  lemma {:induction false} CountSkips(text: Bytes, find: Bytes, k: nat)
    requires find != [] && k <= |text| && ClearTo(text, find, k)
    ensures Count(text, find) == Count(text[k..], find)
    decreases k
  {
    if k == 0 {
      assert text[0..] == text;
    } else {
      assert !OccursAt(text, find, 0);
      forall j: nat | j < k - 1
        ensures !OccursAt(text[1..], find, j)
      {
        OccursOn(text, find, 1, j);
      }
      CountSkips(text[1..], find, k - 1);
      assert text[1..][k - 1..] == text[k..];
    }
  }

  /** An occurrence in what is left of a text is one in the text. */
  lemma OccursOn(text: Bytes, find: Bytes, n: nat, j: nat)
    requires n <= |text|
    ensures OccursAt(text[n..], find, j) <==> OccursAt(text, find, n + j)
  {
    if n + j + |find| <= |text| {
      assert text[n..][j..j + |find|] == text[n + j..n + j + |find|];
    }
  }

  /** The first occurrence counts as one, and then those behind it. */
  lemma {:induction false} CountNext(text: Bytes, find: Bytes, k: nat)
    requires find != [] && OccursAt(text, find, k) && ClearTo(text, find, k)
    ensures Count(text, find) == 1 + Count(text[k + |find|..], find) && Count(text, []) == |text| + 1
  {
    CountSkips(text, find, k);
    assert text[k..][..|find|] == find && text[k..][|find|..] == text[k + |find|..];
  }

  /** Behind the last occurrence nothing counts. */
  lemma {:induction false} CountCuts(text: Bytes, find: Bytes, n: nat)
    requires find != [] && n <= |text| && Within(text, find, n)
    ensures Count(text, find) == Count(text[..n], find)
    decreases |text|
  {
    if |find| <= |text| {
      var step := if find <= text then |find| else 1;
      assert find <= text ==> OccursAt(text, find, 0);
      forall j: nat | OccursAt(text[step..], find, j)
        ensures step + j + |find| <= n
      {
        OccursOn(text, find, step, j);
      }
      if step <= n {
        CountCuts(text[step..], find, n - step);
        assert text[..n][step..] == text[step..][..n - step];
        assert |find| <= n ==> text[..n][..|find|] == text[..|find|];
        if |find| > n {
          CountsNone(text, find);
        }
      } else {
        CountsNone(text, find);
      }
    }
  }

  lemma {:induction false} CountsNone(text: Bytes, find: Bytes)
    requires find != [] && Absent(text, find)
    ensures Count(text, find) == 0
    decreases |text|
  {
    if |find| <= |text| {
      assert !OccursAt(text, find, 0);
      forall j: nat
        ensures !OccursAt(text[1..], find, j)
      {
        OccursOn(text, find, 1, j);
      }
      CountsNone(text[1..], find);
    }
  }

  lemma {:induction false} NoneCounted(text: Bytes, find: Bytes, k: nat)
    requires find != [] && Count(text, find) == 0
    ensures !OccursAt(text, find, k)
    decreases |text|
  {
    if |find| <= |text| && k > 0 {
      NoneCounted(text[1..], find, k - 1);
      OccursOn(text, find, 1, k - 1);
    }
  }

  lemma {:induction false} NoneBehind(text: Bytes, find: Bytes)
    requires find != [] && Count(text, find) == 1
    ensures Count(text[FirstAt(text, find) + |find|..], find) == 0
    decreases |text|
  {
    if !(find <= text) {
      NoneBehind(text[1..], find);
      OneFurther(text, FirstAt(text[1..], find), |find|, []);
    }
  }

  /** The one occurrence is replaced where it is. */
  lemma {:induction false} ReplacesInPlace(text: Bytes, find: Bytes, replace: Bytes, k: nat)
    requires find != [] && Count(text, find) == 1 && k == FirstAt(text, find)
    ensures ReplaceAll(text, find, replace) == text[..k] + replace + text[k + |find|..]
    decreases |text|
  {
    if find <= text {
      NothingReplaced(text[|find|..], find, replace);
    } else {
      ReplacesInPlace(text[1..], find, replace, k - 1);
      OneFurther(text, k - 1, |find|, replace);
    }
  }

  /** A replacement behind the first byte. */
  lemma OneFurther(text: Bytes, k: nat, n: nat, replace: Bytes)
    requires 1 + k + n <= |text|
    ensures text[1..][k + n..] == text[1 + k + n..]
    ensures [text[0]] + (text[1..][..k] + replace + text[1..][k + n..]) == text[..1 + k] + replace + text[1 + k + n..]
  {
    assert [text[0]] + text[1..][..k] == text[..1 + k];
    Associative([text[0]], text[1..][..k], replace);
    Associative([text[0]], text[1..][..k] + replace, text[1..][k + n..]);
  }

  lemma {:induction false} NothingReplaced(text: Bytes, find: Bytes, replace: Bytes)
    requires find != [] && Count(text, find) == 0
    ensures ReplaceAll(text, find, replace) == text
    decreases |text|
  {
    if |find| <= |text| {
      NothingReplaced(text[1..], find, replace);
    }
  }

  /** The last bytes, at most `n`. */
  function Last(s: Bytes, n: nat): Bytes {
    s[if |s| > n then |s| - n else 0..]
  }

  function First(s: Bytes, n: nat): Bytes {
    s[..if |s| > n then n else |s|]
  }

  /** The replacement with as much on either side as one occurrence could reach out to. */
  function Seam(m: Edit, text: Bytes): Bytes
    requires m.find != [] && Count(text, m.find) == 1
  {
    var k, reach := FirstAt(text, m.find), |m.find| - 1;
    Last(text[..k], reach) + m.replace + First(text[k + |m.find|..], reach)
  }

  lemma OccursInFront(a: Bytes, b: Bytes, find: Bytes, j: nat)
    requires j + |find| <= |a|
    ensures OccursAt(a + b, find, j) <==> OccursAt(a, find, j)
  {
    assert (a + b)[j..j + |find|] == a[j..j + |find|];
  }

  lemma OccursBehind(a: Bytes, b: Bytes, find: Bytes, j: nat)
    requires |a| <= j
    ensures OccursAt(a + b, find, j) <==> OccursAt(b, find, j - |a|)
  {
    assert (a + b)[|a|..] == b;
    OccursOn(a + b, find, |a|, j - |a|);
  }

  /** Whatever occurs after the edit occurs across the replacement. */
  lemma {:induction false} OccursInSeam(before: Bytes, replace: Bytes, after: Bytes, find: Bytes, j: nat)
    requires find != [] && OccursAt(before + replace + after, find, j)
    requires Absent(before, find) && Absent(after, find)
    ensures j + |find| > |before| && j < |before| + |replace|
  {
    if j + |find| <= |before| {
      Associative(before, replace, after);
      OccursInFront(before, replace + after, find, j);
    }
    if j >= |before| + |replace| {
      OccursBehind(before + replace, after, find, j);
    }
  }

  lemma {:induction false} CutBehind(before: Bytes, replace: Bytes, after: Bytes, find: Bytes)
    requires find != [] && Absent(before, find) && Absent(after, find)
    ensures Within(before + replace + after, find, |before| + |replace| + |First(after, |find| - 1)|)
  {
    forall j: nat | OccursAt(before + replace + after, find, j)
      ensures j + |find| <= |before| + |replace| + |First(after, |find| - 1)|
    {
      OccursInSeam(before, replace, after, find, j);
    }
  }

  lemma {:induction false} SkippedBefore(before: Bytes, replace: Bytes, after: Bytes, find: Bytes, n: nat)
    requires find != [] && Absent(before, find) && Absent(after, find) && n <= |before + replace + after|
    ensures ClearTo((before + replace + after)[..n], find, |before| - |Last(before, |find| - 1)|)
  {
    var mutated := before + replace + after;
    forall j: nat | j < |before| - |Last(before, |find| - 1)|
      ensures !OccursAt(mutated[..n], find, j)
    {
      if OccursAt(mutated[..n], find, j) {
        assert mutated[..n][j..j + |find|] == mutated[j..j + |find|];
        OccursInSeam(before, replace, after, find, j);
      }
    }
  }

  lemma {:induction false} CountsInSeam(before: Bytes, replace: Bytes, after: Bytes, find: Bytes,
                                        mutated: Bytes, seam: Bytes)
    requires find != [] && Absent(before, find) && Absent(after, find)
    requires mutated == before + replace + after
    requires seam == Last(before, |find| - 1) + replace + First(after, |find| - 1)
    ensures Count(mutated, find) == Count(seam, find)
  {
    var start := |before| - |Last(before, |find| - 1)|;
    var n := |before| + |replace| + |First(after, |find| - 1)|;
    assert Count(mutated, find) == Count(mutated[..n], find) by {
      CutBehind(before, replace, after, find);
      CountCuts(mutated, find, n);
    }
    assert Count(mutated[..n], find) == Count(mutated[..n][start..], find) by {
      SkippedBefore(before, replace, after, find, n);
      CountSkips(mutated[..n], find, start);
    }
    assert mutated[..n][start..] == seam;
  }

  /** The anchor does not occur in what precedes its first occurrence ... */
  lemma {:induction false} AbsentBefore(text: Bytes, find: Bytes)
    requires find != [] && Count(text, find) >= 1
    ensures Absent(text[..FirstAt(text, find)], find)
  {
    var k := FirstAt(text, find);
    forall i: nat
      ensures !OccursAt(text[..k], find, i)
    {
      if i + |find| <= k {
        assert text[..k][i..i + |find|] == text[i..i + |find|];
        NoneBefore(text, find, i);
      }
    }
  }

  /** ... nor behind it, when it counts once. */
  lemma {:induction false} AbsentBehind(text: Bytes, find: Bytes)
    requires find != [] && Count(text, find) == 0
    ensures Absent(text, find)
  {
    forall i: nat
      ensures !OccursAt(text, find, i)
    {
      NoneCounted(text, find, i);
    }
  }

  /** The text around the one occurrence, and what replacing makes of it. */
  lemma {:induction false} AroundTheEdit(text: Bytes, find: Bytes, replace: Bytes, before: Bytes, after: Bytes)
    requires find != [] && Count(text, find) == 1
    requires before == text[..FirstAt(text, find)] && after == text[FirstAt(text, find) + |find|..]
    ensures ReplaceAll(text, find, replace) == before + replace + after
    ensures Absent(before, find) && Absent(after, find)
  {
    ReplacesInPlace(text, find, replace, FirstAt(text, find));
    AbsentBefore(text, find);
    NoneBehind(text, find);
    AbsentBehind(after, find);
  }

  /** `edited` has `replace` where the first `find` was, and is the same before and after it. */
  ghost predicate IsEdit(text: Bytes, find: Bytes, replace: Bytes, edited: Bytes) {
    exists before, after :: EditsBetween(text, find, replace, edited, before, after)
  }

  ghost predicate EditsBetween(text: Bytes, find: Bytes, replace: Bytes, edited: Bytes, before: Bytes, after: Bytes) {
    text == before + find + after && edited == before + replace + after && ClearTo(text, find, |before|)
  }

  lemma {:induction false} ReplacesTheFirst(text: Bytes, find: Bytes, replace: Bytes)
    requires Count(text, find) == 1
    ensures IsEdit(text, find, replace, ReplaceAll(text, find, replace))
  {
    if find == [] {
      assert [] + replace + [] == replace;
      assert EditsBetween(text, find, replace, ReplaceAll(text, find, replace), [], []);
    } else {
      var k := FirstAt(text, find);
      var before, after := text[..k], text[k + |find|..];
      FirstOccurs(text, find);
      forall j: nat | j < k
        ensures !OccursAt(text, find, j)
      {
        NoneBefore(text, find, j);
      }
      ReplacesInPlace(text, find, replace, k);
      assert text == before + find + after;
      assert EditsBetween(text, find, replace, ReplaceAll(text, find, replace), before, after);
    }
  }

  lemma {:induction false} FirstOccurs(text: Bytes, find: Bytes)
    requires find != [] && Count(text, find) >= 1
    ensures OccursAt(text, find, FirstAt(text, find))
    decreases |text|
  {
    if find <= text {
      assert text[0..|find|] == find;
    } else {
      FirstOccurs(text[1..], find);
      OccursOn(text, find, 1, FirstAt(text[1..], find));
    }
  }

  /** After the edit the anchor counts as often as in the seam: nothing else in the file matters. */
  lemma {:induction false} AnchorsInSeam(m: Edit, text: Bytes)
    requires m.find != [] && Count(text, m.find) == 1
    ensures Count(ReplaceAll(text, m.find, m.replace), m.find) == Count(Seam(m, text), m.find)
  {
    var k := FirstAt(text, m.find);
    var before, after := text[..k], text[k + |m.find|..];
    AroundTheEdit(text, m.find, m.replace, before, after);
    CountsInSeam(before, m.replace, after, m.find, ReplaceAll(text, m.find, m.replace), Seam(m, text));
  }

  /**
   Which edits `--check` could miss, exactly: the replacement does not contain its anchor, yet forms
   it again, once, with the bytes beside it. An edit that inserts around its anchor is always seen,
   and so is one whose seam does not form the anchor.
   */
  lemma {:induction false} BlindExactly(m: Edit, text: Bytes)
    requires Count(text, m.find) == 1
    ensures Blind(m, text) <==>
            !Contains(m.replace, m.find) && m.find != [] && Count(Seam(m, text), m.find) == 1
    ensures !Reported(m, text) && !Blind(m, text) ==> Reported(m, ReplaceAll(text, m.find, m.replace))
  {
    ReplacementIsThere(text, m.find, m.replace);
    if m.find == [] {
      assert m.find <= m.replace[0..];
    } else {
      AnchorsInSeam(m, text);
    }
  }
}
