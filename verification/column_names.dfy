/** `clean_column_names`: tidy each header, then give repeated headers numbered suffixes. */
module ColumnNames {
  import opened Text

  /** `.replace("\n", " ").replace("\r", " ")`: every `\n` and `\r` becomes a space and nothing else moves. */
  function ReplaceLineBreaks(s: string): (r: string)
    ensures |r| == |s|
    ensures '\n' !in r && '\r' !in r
    ensures forall i :: 0 <= i < |s| && r[i] != s[i] ==> (s[i] == '\n' || s[i] == '\r') && r[i] == ' '
  {
    if |s| == 0 then []
    else [if s[0] == '\n' || s[0] == '\r' then ' ' else s[0]] + ReplaceLineBreaks(s[1..])
  }

  /** A header after cleaning: no `\n` or `\r`, no surrounding whitespace. */
  predicate IsClean(s: string) {
    '\n' !in s && '\r' !in s && Trimmed(s)
  }

  /** One header cleaned: `\n` and `\r` turned into spaces, then surrounding whitespace stripped. */
  function CleanName(raw: string): (c: string)
    ensures IsClean(c)
  {
    var t := ReplaceLineBreaks(raw);
    var c := Strip(t);
    assert '\n' !in c by {
      if '\n' in c { StripKeepsCharacters(t, '\n'); }
    }
    assert '\r' !in c by {
      if '\r' in c { StripKeepsCharacters(t, '\r'); }
    }
    c
  }

  /** A header that is already clean is left exactly as it is. */
  lemma CleanNameFixesClean(s: string)
    requires IsClean(s)
    ensures CleanName(s) == s
  {
    var t := ReplaceLineBreaks(s);
    assert forall i :: 0 <= i < |s| ==> s[i] in s;
    assert t == s;
    StripTrimmed(s);
  }

  /** Cleaning is idempotent. */
  lemma CleanNameIdempotent(raw: string)
    ensures CleanName(CleanName(raw)) == CleanName(raw)
  {
    CleanNameFixesClean(CleanName(raw));
  }

  /** How many times `x` occurs in `xs`. */
  function Occurrences(xs: seq<string>, x: string): nat {
    if |xs| == 0 then 0
    else Occurrences(xs[..|xs| - 1], x) + (if xs[|xs| - 1] == x then 1 else 0)
  }

  lemma {:induction false} OccurrencesAppend(a: seq<string>, b: seq<string>, x: string)
    ensures Occurrences(a + b, x) == Occurrences(a, x) + Occurrences(b, x)
  {
    if |b| > 0 {
      assert (a + b)[..|a + b| - 1] == a + b[..|b| - 1];
      OccurrencesAppend(a, b[..|b| - 1], x);
    } else {
      assert a + b == a;
    }
  }

  lemma OccurrencesSnoc(xs: seq<string>, i: nat, x: string)
    requires i < |xs|
    ensures Occurrences(xs[..i + 1], x) == Occurrences(xs[..i], x) + (if xs[i] == x then 1 else 0)
  {
    assert xs[..i + 1][..i] == xs[..i];
  }

  lemma {:induction false} OccurrencesZero(xs: seq<string>, x: string)
    ensures Occurrences(xs, x) == 0 <==> x !in xs
  {
    if |xs| > 0 {
      var init := xs[..|xs| - 1];
      OccurrencesZero(init, x);
      assert xs == init + [xs[|xs| - 1]];
    }
  }

  /** The label emitted for a header that repeats `k` earlier headers of the same name. */
  function Rename(base: string, k: nat): string {
    if k == 0 then base else base + "_" + NatToString(k)
  }

  /** How many earlier headers carry the same name as header `i`. */
  function Rank(xs: seq<string>, i: nat): nat
    requires i < |xs|
  {
    Occurrences(xs[..i], xs[i])
  }

  /** Header `i` repeats an earlier header. */
  predicate IsRepeat(xs: seq<string>, i: nat)
    requires i < |xs|
  {
    Rank(xs, i) > 0
  }

  /**
   * The renaming rule stated per position: the first occurrence of a name keeps it,
   * the k-th later repeat of it becomes `name_k`.
   */
  function Deduplicate(names: seq<string>): (r: seq<string>)
    ensures |r| == |names|
  {
    seq(|names|, i requires 0 <= i < |names| => Rename(names[i], Rank(names, i)))
  }

  function CleanAll(raw: seq<string>): (r: seq<string>)
    ensures |r| == |raw|
    ensures forall i :: 0 <= i < |raw| ==> r[i] == CleanName(raw[i])
  {
    seq(|raw|, i requires 0 <= i < |raw| => CleanName(raw[i]))
  }

  /** The header `clean_column_names` produces. */
  function Normalize(raw: seq<string>): seq<string> {
    Deduplicate(CleanAll(raw))
  }

  /** `seen` maps each name met so far to the number of its repeats so far. */
  ghost predicate SeenCounts(seen: map<string, nat>, prefix: seq<string>) {
    && (forall c :: c in seen <==> Occurrences(prefix, c) > 0)
    && (forall c :: c in seen ==> seen[c] + 1 == Occurrences(prefix, c))
  }

  /** One step of the scan: the counter it reads is the rank, and the updated map stays exact. */
  lemma SeenStep(cols: seq<string>, i: nat, seen: map<string, nat>)
    requires i < |cols| && SeenCounts(seen, cols[..i])
    ensures var k := if cols[i] in seen then seen[cols[i]] + 1 else 0;
      k == Rank(cols, i) && SeenCounts(seen[cols[i] := k], cols[..i + 1])
  {
    forall x
      ensures Occurrences(cols[..i + 1], x) == Occurrences(cols[..i], x) + (if x == cols[i] then 1 else 0)
    {
      OccurrencesSnoc(cols, i, x);
    }
  }

  /** `names` holds the labels of the first `i` headers. */
  predicate LabelsUpTo(cols: seq<string>, names: seq<string>, i: nat)
    requires i <= |cols|
  {
    |names| == i && forall j :: 0 <= j < i ==> names[j] == Rename(cols[j], Rank(cols, j))
  }

  /** Appending the label of header `i` extends the labelled prefix by one. */
  lemma LabelsStep(cols: seq<string>, names: seq<string>, i: nat)
    requires i < |cols| && LabelsUpTo(cols, names, i)
    ensures LabelsUpTo(cols, names + [Rename(cols[i], Rank(cols, i))], i + 1)
  {
    var next := names + [Rename(cols[i], Rank(cols, i))];
    forall j | 0 <= j < i + 1
      ensures next[j] == Rename(cols[j], Rank(cols, j))
    {
      if j < i {
        assert next[j] == names[j];
      }
    }
  }

  /** Once every header is labelled, the labels are the renaming rule's. */
  lemma LabelsComplete(cols: seq<string>, names: seq<string>)
    requires LabelsUpTo(cols, names, |cols|)
    ensures names == Deduplicate(cols)
  {
  }

  /** `clean_column_names`: clean every header, then run the de-duplicating scan. */
  method CleanColumnNames(columns: seq<string>) returns (names: seq<string>)
    ensures names == Normalize(columns)
  {
    names := DeduplicateScan(CleanAll(columns));
  }

  /**
   * The left-to-right scan of `clean_column_names` with its `seen` counter map, which is keyed
   * on the cleaned names only. It computes the per-position renaming rule.
   */
  method DeduplicateScan(cols: seq<string>) returns (names: seq<string>)
    ensures names == Deduplicate(cols)
  {
    var seen: map<string, nat> := map[];
    names := [];
    var i := 0;
    while i < |cols|
      invariant 0 <= i <= |cols|
      invariant LabelsUpTo(cols, names, i)
      invariant SeenCounts(seen, cols[..i])
    {
      var c := cols[i];
      var k := if c in seen then seen[c] + 1 else 0;
      SeenStep(cols, i, seen);
      LabelsStep(cols, names, i);
      seen := seen[c := k];
      names := names + [Rename(c, k)];
      i := i + 1;
    }
    LabelsComplete(cols, names);
  }

  /**
   * Every label produced is the cleaned header at the same position, possibly followed by
   * `_k` for a positive k; it is suffixed exactly when the header repeats an earlier one.
   */
  lemma NormalizedLabelShape(raw: seq<string>, i: nat)
    requires i < |raw|
    ensures |Normalize(raw)| == |raw|
    ensures !IsRepeat(CleanAll(raw), i) ==> Normalize(raw)[i] == CleanName(raw[i])
    ensures IsRepeat(CleanAll(raw), i) ==> SuffixedForm(Normalize(raw)[i], CleanName(raw[i]))
  {
    var cols := CleanAll(raw);
    assert cols[i] == CleanName(raw[i]);
    RenamedLabelShape(cols, i);
  }

  lemma RenamedLabelShape(cols: seq<string>, i: nat)
    requires i < |cols|
    ensures !IsRepeat(cols, i) ==> Deduplicate(cols)[i] == cols[i]
    ensures IsRepeat(cols, i) ==> SuffixedForm(Deduplicate(cols)[i], cols[i])
  {
    if IsRepeat(cols, i) {
      RenameIsSuffixed(cols[i], Rank(cols, i));
    }
  }

  lemma RenameIsSuffixed(base: string, k: nat)
    requires k > 0
    ensures SuffixedForm(Rename(base, k), base)
  {
    var g := base + "_" + NatToString(k);
    assert g[..|base|] == base;
    assert g[|base| + 1..] == NatToString(k);
  }

  predicate Distinct(xs: seq<string>) {
    forall i, j :: 0 <= i < j < |xs| ==> xs[i] != xs[j]
  }

  /** No header coincides with the label generated for a repeated header. */
  ghost predicate NoGeneratedClash(xs: seq<string>) {
    forall i, j :: 0 <= i < |xs| && 0 <= j < |xs| && IsRepeat(xs, j) ==> xs[i] != Deduplicate(xs)[j]
  }

  /** When the cleaned headers are already pairwise distinct, nothing is renamed. */
  lemma DistinctUnchanged(xs: seq<string>)
    requires Distinct(xs)
    ensures Deduplicate(xs) == xs
  {
    forall i | 0 <= i < |xs|
      ensures Deduplicate(xs)[i] == xs[i]
    {
      OccurrencesZero(xs[..i], xs[i]);
    }
  }

  /** A later equal header has seen strictly more repeats of its name. */
  lemma OccurrencesGrow(xs: seq<string>, i: nat, j: nat)
    requires i < j < |xs| && xs[i] == xs[j]
    ensures Occurrences(xs[..j], xs[j]) > Occurrences(xs[..i], xs[i])
  {
    assert xs[..j] == xs[..i] + xs[i..j];
    OccurrencesAppend(xs[..i], xs[i..j], xs[j]);
    assert xs[i] in xs[i..j];
    OccurrencesZero(xs[i..j], xs[j]);
  }

  /** The first position holding the same name as position `i`. */
  lemma {:induction false} FirstOccurrence(xs: seq<string>, i: nat) returns (i0: nat)
    requires i < |xs|
    ensures i0 <= i && xs[i0] == xs[i] && !IsRepeat(xs, i0)
    decreases i
  {
    OccurrencesZero(xs[..i], xs[i]);
    if !IsRepeat(xs, i) {
      i0 := i;
    } else {
      var j :| 0 <= j < i && xs[..i][j] == xs[i];
      i0 := FirstOccurrence(xs, j);
    }
  }

  /** In `a_d` with no underscore in `d`, the last underscore is the one just before `d`. */
  lemma UnderscoreBeforeSuffix(a: string, d: string)
    requires '_' !in d
    ensures var s := a + "_" + d; s[|s| - |d| - 1] == '_'
    ensures var s := a + "_" + d; forall k :: |s| - |d| <= k < |s| ==> s[k] != '_'
  {
    var s := a + "_" + d;
    forall k | |s| - |d| <= k < |s|
      ensures s[k] != '_'
    {
      assert s[k] == d[k - (|s| - |d|)];
    }
  }

  /** A suffix `_d` whose `d` has no underscore can be split off in only one way. */
  lemma SuffixSplit(a: string, d1: string, b: string, d2: string)
    requires '_' !in d1 && '_' !in d2
    requires a + "_" + d1 == b + "_" + d2
    ensures a == b && d1 == d2
  {
    var s := a + "_" + d1;
    UnderscoreBeforeSuffix(a, d1);
    UnderscoreBeforeSuffix(b, d2);
    assert |d1| == |d2|;
    assert a == s[..|a|];
    assert b == s[..|b|];
    assert d1 == s[|s| - |d1|..];
    assert d2 == s[|s| - |d2|..];
  }

  lemma NumeralHasNoUnderscore(k: nat)
    ensures '_' !in NatToString(k)
  {
  }

  /** Contrapositive of `SuffixSplit`: different bases or different suffixes give different labels. */
  lemma SuffixedDiffer(a: string, d1: string, b: string, d2: string)
    requires '_' !in d1 && '_' !in d2
    requires a != b || d1 != d2
    ensures a + "_" + d1 != b + "_" + d2
  {
    if a + "_" + d1 == b + "_" + d2 {
      SuffixSplit(a, d1, b, d2);
    }
  }

  /**
   * The labels produced are pairwise distinct exactly when no header equals a label the
   * renaming generates for a repeat: `seen` is keyed on the original names only.
   */
  lemma DeduplicateDistinctIff(xs: seq<string>)
    ensures Distinct(Deduplicate(xs)) <==> NoGeneratedClash(xs)
  {
    var out := Deduplicate(xs);
    if Distinct(out) {
      forall i, j | 0 <= i < |xs| && 0 <= j < |xs| && IsRepeat(xs, j)
        ensures xs[i] != out[j]
      {
        var i0 := FirstOccurrence(xs, i);
        assert out[i0] == xs[i];
        assert i0 != j;
        assert out[i0] != out[j] by {
          if i0 < j {
          } else {
          }
        }
      }
    }
    if NoGeneratedClash(xs) {
      forall i, j | 0 <= i < j < |xs|
        ensures out[i] != out[j]
      {
        var ki := Occurrences(xs[..i], xs[i]);
        var kj := Occurrences(xs[..j], xs[j]);
        if ki == 0 && kj == 0 {
          OccurrencesZero(xs[..j], xs[j]);
          assert xs[..j][i] == xs[i];
        } else if ki == 0 {
          assert IsRepeat(xs, j);
        } else if kj == 0 {
          assert IsRepeat(xs, i);
        } else {
          NumeralHasNoUnderscore(ki);
          NumeralHasNoUnderscore(kj);
          if xs[i] == xs[j] {
            OccurrencesGrow(xs, i, j);
            if NatToString(ki) == NatToString(kj) {
              NatToStringInjective(ki, kj);
            }
          }
          SuffixedDiffer(xs[i], NatToString(ki), xs[j], NatToString(kj));
        }
      }
    }
  }

  /** `d` is what Python prints for a positive integer. */
  predicate IsPositiveNumeral(d: string) {
    |d| >= 1 && AllDigits(d) && d[0] != '0'
  }

  /** `x` has the shape `base_k` for a positive integer k. */
  predicate SuffixedForm(x: string, base: string) {
    |x| > |base| + 1 && x[..|base|] == base && x[|base|] == '_' && IsPositiveNumeral(x[|base| + 1..])
  }

  /** No cleaned header is another cleaned header followed by `_k`. */
  predicate NoSuffixedPair(xs: seq<string>) {
    forall a, b :: 0 <= a < |xs| && 0 <= b < |xs| ==> !SuffixedForm(xs[a], xs[b])
  }

  /** Under the no-suffixed-pair condition the labels produced are pairwise distinct. */
  lemma UniqueWithoutSuffixedPairs(xs: seq<string>)
    requires NoSuffixedPair(xs)
    ensures Distinct(Deduplicate(xs))
  {
    forall i, j | 0 <= i < |xs| && 0 <= j < |xs| && IsRepeat(xs, j)
      ensures xs[i] != Deduplicate(xs)[j]
    {
      RenameIsSuffixed(xs[j], Rank(xs, j));
    }
    DeduplicateDistinctIff(xs);
  }

  /** Suffixing a clean header keeps it clean. */
  lemma RenamedIsClean(base: string, k: nat)
    requires IsClean(base)
    ensures IsClean(Rename(base, k))
  {
    if k > 0 {
      var d := NatToString(k);
      var g := base + "_" + d;
      assert forall p :: 0 <= p < |g| ==> g[p] == '_' || g[p] in base || g[p] in d by {
        forall p | 0 <= p < |g|
          ensures g[p] == '_' || g[p] in base || g[p] in d
        {
          if p < |base| {
            assert g[p] == base[p];
          } else if p > |base| {
            assert g[p] == d[p - |base| - 1];
          }
        }
      }
      assert '\n' !in d && '\r' !in d;
      assert g[|g| - 1] == d[|d| - 1];
      assert g[0] == if base == [] then '_' else base[0];
    }
  }

  /** Normalizing a header whose labels came out distinct gives back the same header. */
  lemma NormalizeIdempotent(raw: seq<string>)
    requires Distinct(Normalize(raw))
    ensures Normalize(Normalize(raw)) == Normalize(raw)
  {
    var cols := CleanAll(raw);
    var out := Normalize(raw);
    forall i | 0 <= i < |out|
      ensures CleanName(out[i]) == out[i]
    {
      RenamedIsClean(cols[i], Occurrences(cols[..i], cols[i]));
      CleanNameFixesClean(out[i]);
    }
    assert CleanAll(out) == out;
    DistinctUnchanged(out);
  }

  /** Headers that are already clean reach the de-duplicating scan unchanged. */
  lemma NormalizeClean(xs: seq<string>)
    requires forall i :: 0 <= i < |xs| ==> IsClean(xs[i])
    ensures Normalize(xs) == Deduplicate(xs)
  {
    forall i | 0 <= i < |xs|
      ensures CleanAll(xs)[i] == xs[i]
    {
      CleanNameFixesClean(xs[i]);
    }
    assert CleanAll(xs) == xs;
  }

  /** The headers used in the examples below are already clean. */
  lemma LiteralsClean()
    ensures IsClean("A") && IsClean("A_1")
  {
  }

  /** A three-column header of clean names only goes through the renaming scan. */
  lemma NormalizeThree(a: string, b: string, c: string)
    requires IsClean(a) && IsClean(b) && IsClean(c)
    ensures Normalize([a, b, c]) == Deduplicate([a, b, c])
  {
    NormalizeClean([a, b, c]);
  }

  /** Three equal headers become `A`, `A_1`, `A_2`. */
  lemma RepeatedHeaderExample()
    ensures Normalize(["A", "A", "A"]) == ["A", "A_1", "A_2"]
  {
    LiteralsClean();
    NormalizeThree("A", "A", "A");
    RepeatedHeaderRenaming();
  }

  lemma RepeatedHeaderRenaming()
    ensures Deduplicate(["A", "A", "A"]) == ["A", "A_1", "A_2"]
  {
    var xs := ["A", "A", "A"];
    assert xs[..1] == ["A"] && xs[..2] == ["A", "A"];
    assert Occurrences(["A"], "A") == 1 by {
      assert ["A"][..0] == [];
    }
    assert Occurrences(["A", "A"], "A") == 2 by {
      assert ["A", "A"][..1] == ["A"];
    }
    assert NatToString(1) == "1" && NatToString(2) == "2";
    var out := Deduplicate(xs);
    assert out[0] == "A";
    assert out[1] == "A_1";
    assert out[2] == "A_2";
  }

  /**
   * `["A", "A", "A_1"]` yields two columns labelled `A_1`: the labels are unique only under
   * the no-suffixed-pair condition.
   */
  lemma CollisionExample()
    ensures Normalize(["A", "A", "A_1"]) == ["A", "A_1", "A_1"]
    ensures !Distinct(Normalize(["A", "A", "A_1"]))
  {
    LiteralsClean();
    NormalizeThree("A", "A", "A_1");
    CollisionRenaming();
    NotDistinctWitness(["A", "A_1", "A_1"], 1, 2);
  }

  /** Two equal labels at different positions make a header not distinct. */
  lemma NotDistinctWitness(xs: seq<string>, i: nat, j: nat)
    requires i < j < |xs| && xs[i] == xs[j]
    ensures !Distinct(xs)
  {
  }

  lemma CollisionRenaming()
    ensures Deduplicate(["A", "A", "A_1"]) == ["A", "A_1", "A_1"]
  {
    var xs := ["A", "A", "A_1"];
    assert xs[..1] == ["A"] && xs[..2] == ["A", "A"];
    assert Occurrences(["A"], "A") == 1 by {
      assert ["A"][..0] == [];
    }
    assert Occurrences(["A", "A"], "A_1") == 0 by {
      assert ["A", "A"][..1] == ["A"];
      assert ["A"][..0] == [];
    }
    assert NatToString(1) == "1";
    var out := Deduplicate(xs);
    assert out[0] == "A";
    assert out[1] == "A_1";
    assert out[2] == "A_1";
  }

  /** A header without `\n` or `\r` is left alone by the line-break replacement. */
  lemma NoLineBreaksKept(s: string)
    requires '\n' !in s && '\r' !in s
    ensures ReplaceLineBreaks(s) == s
  {
    var r := ReplaceLineBreaks(s);
    forall i | 0 <= i < |s|
      ensures r[i] == s[i]
    {
      assert s[i] in s;
    }
  }

  /** A clean header behind one leading space cleans back to the header itself. */
  lemma LeadingSpaceCleans(s: string)
    requires IsClean(s) && s != []
    ensures CleanName([' '] + s) == s
  {
    var p := [' '] + s;
    assert '\n' !in p && '\r' !in p by {
      assert forall c :: c in p ==> c == ' ' || c in s;
    }
    NoLineBreaksKept(p);
    assert p[1..] == s;
    assert TrimStart(p) == TrimStart(s);
    StripTrimmed(s);
  }

  /** Counting in a one- and a two-element prefix. */
  lemma OccurrencesShort(a: string, x: string)
    ensures Occurrences([a], x) == if x == a then 1 else 0
    ensures Occurrences([a, a], x) == if x == a then 2 else 0
  {
    assert [a][..0] == [];
    assert [a, a][..1] == [a];
  }

  /** For any header `a`, the cleaned header `a, a, a_1` is renamed to `a, a_1, a_1`. */
  lemma CollisionRule(a: string)
    ensures Deduplicate([a, a, a + "_1"]) == [a, a + "_1", a + "_1"]
  {
    var b := a + "_1";
    var xs := [a, a, b];
    assert xs[..1] == [a] && xs[..2] == [a, a];
    assert b != a by {
      assert |b| == |a| + 2;
    }
    OccurrencesShort(a, a);
    OccurrencesShort(a, b);
    assert Rank(xs, 0) == 0 && Rank(xs, 1) == 1 && Rank(xs, 2) == 0;
    RenameOne(a);
  }

  /** The first repeat of `a` is labelled `a_1`. */
  lemma RenameOne(a: string)
    ensures Rename(a, 1) == a + "_1"
  {
    assert NatToString(1) == "1";
  }

  /** For clean headers `a` (non-empty) and `b`, the header `a`, ` a`, `b` cleans to `a, a, b`. */
  lemma PaddedCleaning(a: string, b: string)
    requires IsClean(a) && a != [] && IsClean(b)
    ensures CleanAll([a, [' '] + a, b]) == [a, a, b]
  {
    var raw := [a, [' '] + a, b];
    var c := CleanAll(raw);
    assert c[0] == a by {
      assert raw[0] == a;
      CleanNameFixesClean(a);
    }
    assert c[1] == a by {
      assert raw[1] == [' '] + a;
      LeadingSpaceCleans(a);
    }
    assert c[2] == b by {
      assert raw[2] == b;
      CleanNameFixesClean(b);
    }
    SeqOfThree(c, a, a, b);
  }

  /** A sequence of length three is the display of its three elements. */
  lemma SeqOfThree(c: seq<string>, x: string, y: string, z: string)
    requires |c| == 3 && c[0] == x && c[1] == y && c[2] == z
    ensures c == [x, y, z]
  {
  }

  /**
   * Headers that differ only by surrounding whitespace collide after cleaning: for any clean
   * header `a`, the header `a`, ` a`, `a_1` becomes `a, a_1, a_1`.
   */
  lemma PaddedCollision(a: string)
    requires IsClean(a) && a != []
    ensures Normalize([a, [' '] + a, a + "_1"]) == [a, a + "_1", a + "_1"]
  {
    RenameOne(a);
    RenamedIsClean(a, 1);
    PaddedCleaning(a, a + "_1");
    CollisionRule(a);
  }

  /** `A`, ` A`, `A_1` becomes `A, A_1, A_1`. */
  lemma PaddedCollisionExample()
    ensures Normalize(["A", " A", "A_1"]) == ["A", "A_1", "A_1"]
  {
    LiteralsClean();
    PaddedCollision("A");
    assert [' '] + "A" == " A" && "A" + "_1" == "A_1";
  }

  /** Normalizing the colliding header a second time renames it again: idempotence needs distinct labels. */
  lemma CollisionNotIdempotent()
    ensures Normalize(Normalize(["A", "A", "A_1"])) == ["A", "A_1", "A_1_1"]
  {
    CollisionExample();
    SecondPassExample();
  }

  lemma SecondPassExample()
    ensures Normalize(["A", "A_1", "A_1"]) == ["A", "A_1", "A_1_1"]
  {
    LiteralsClean();
    NormalizeThree("A", "A_1", "A_1");
    SecondPassRenaming();
  }

  lemma SecondPassRenaming()
    ensures Deduplicate(["A", "A_1", "A_1"]) == ["A", "A_1", "A_1_1"]
  {
    var ys := ["A", "A_1", "A_1"];
    assert ys[..1] == ["A"] && ys[..2] == ["A", "A_1"];
    assert Occurrences(["A"], "A_1") == 0 by {
      assert ["A"][..0] == [];
    }
    assert Occurrences(["A", "A_1"], "A_1") == 1 by {
      assert ["A", "A_1"][..1] == ["A"];
      assert ["A"][..0] == [];
    }
    assert NatToString(1) == "1";
    var out := Deduplicate(ys);
    assert out[0] == "A";
    assert out[1] == "A_1";
    assert out[2] == "A_1_1";
  }
}
