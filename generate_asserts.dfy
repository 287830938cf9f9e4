/**
 * The script that stamps out the layout checks of the slab traits header.
 * It prints a banner, the four check comments with their templates as
 * comments, and then, for every size of its catalogue, the four templates
 * with the placeholder `[SIZE]` replaced by the decimal size.
 *
 * Standard output is modelled as the sequence of arguments handed to
 * `print`; `Stdout` turns that sequence into the text printed (each call
 * appends its argument and a newline).  The program name `argv[0]` is a
 * parameter.
 */
module GenerateAsserts {
  import opened Machine
  import SlabTraits

  /** The sizes for which checks are generated, in emission order. */
  const Sizes: seq<nat> :=
    [8, 16, 32, 48, 64, 80, 96, 112, 128, 144, 160, 176, 192, 208, 224, 240,
     256, 272, 288, 304, 320, 336, 352, 368, 384, 400, 416, 432, 448, 464, 480,
     496, 512]

  const NumAsserts: nat := 4

  const AssertComments: seq<string> := [
    "// asserting size is within permitted bound",
    "// asserting num_slot_vecs has enough indexes for capacity",
    "// asserting calculate maximum possible capacity",
    "// asserting meta_data_size indeed represents all meta data (note + 3 is only for available but this is being safe)"
  ]

  const AssertTemplates: seq<string> := [
    "static_assert(obj_slab_traits<[SIZE]>::capacity * [SIZE] + obj_slab_traits<[SIZE]>::meta_data_size <= slab_size);",
    "static_assert(obj_slab_traits<[SIZE]>::capacity / 64 <= obj_slab_traits<[SIZE]>::num_slot_vecs);",
    "static_assert((slab_size - (obj_slab_traits<[SIZE]>::capacity * [SIZE] + obj_slab_traits<[SIZE]>::meta_data_size)) < [SIZE]);",
    "static_assert(obj_slab_traits<[SIZE]>::meta_data_size >= (L2_CACHE_LOAD_SIZE * (((L2_CACHE_LOAD_SIZE - 1) + (8 * (2 + obj_slab_traits<[SIZE]>::num_slot_vecs))) / L2_CACHE_LOAD_SIZE)) + (L2_CACHE_LOAD_SIZE * (((L2_CACHE_LOAD_SIZE - 1) + (8 * (3 + obj_slab_traits<[SIZE]>::num_slot_vecs))) / L2_CACHE_LOAD_SIZE)));"
  ]

  const Placeholder: string := "[SIZE]"

  // ---------------------------------------------------------------------
  // str.replace and str(int)
  // ---------------------------------------------------------------------

  /** pat occurs in s at position p. */
  predicate OccursAt(s: string, pat: string, p: nat) {
    p + |pat| <= |s| && s[p..p + |pat|] == pat
  }

  predicate Contains(s: string, pat: string) {
    exists p: nat :: p <= |s| && OccursAt(s, pat, p)
  }

  /** No character of rep appears in pat. */
  predicate Disjoint(rep: string, pat: string) {
    forall i :: 0 <= i < |rep| ==> rep[i] !in pat
  }

  /** Python's `s.replace(pat, rep)`: left to right, non-overlapping. */
  function Replace(s: string, pat: string, rep: string): string
    requires |pat| > 0
    decreases |s|
  {
    if |s| < |pat| then s
    else if s[..|pat|] == pat then rep + Replace(s[|pat|..], pat, rep)
    else [s[0]] + Replace(s[1..], pat, rep)
  }

  /** Where the input starts with the pattern, the result starts with the replacement. */
  lemma ReplaceStartsWithRep(t: string, pat: string, rep: string, w: string)
    requires |pat| > 0 && |rep| > 0 && |t| >= |pat| && t[..|pat|] == pat
    requires 0 < |w| <= |Replace(t, pat, rep)| && Replace(t, pat, rep)[..|w|] == w
    ensures w[0] == rep[0]
  {
    assert Replace(t, pat, rep)[0] == rep[0];
  }

  /** An occurrence starting inside a leading rep starts with a character of rep. */
  lemma OccurrenceInsideRep(rep: string, tail: string, pat: string, p: nat)
    requires |pat| > 0 && p < |rep| && OccursAt(rep + tail, pat, p)
    ensures rep[p] in pat
  {
    assert (rep + tail)[p] == pat[0];
  }

  /**
   * A replacement made of characters foreign to the pattern never produces
   * a run of pattern characters: whatever prefix of pattern characters the
   * result starts with, the input started with it too.
   */
  lemma {:induction false} ReplaceKeepsPatternPrefix(t: string, pat: string, rep: string, w: string)
    requires |pat| > 0 && |rep| > 0 && Disjoint(rep, pat)
    requires forall i :: 0 <= i < |w| ==> w[i] in pat
    requires |w| <= |Replace(t, pat, rep)| && Replace(t, pat, rep)[..|w|] == w
    ensures |w| <= |t| && t[..|w|] == w
    decreases |t|
  {
    if |w| == 0 || |t| < |pat| {
    } else if t[..|pat|] == pat {
      ReplaceStartsWithRep(t, pat, rep, w);
      assert false;
    } else {
      var r1 := Replace(t[1..], pat, rep);
      assert Replace(t, pat, rep) == [t[0]] + r1;
      assert r1[..|w| - 1] == w[1..];
      ReplaceKeepsPatternPrefix(t[1..], pat, rep, w[1..]);
      assert t[..|w|] == [t[0]] + t[1..][..|w| - 1];
    }
  }

  /** No occurrence of the pattern survives at position p. */
  lemma {:induction false} ReplaceLeavesNoneAt(s: string, pat: string, rep: string, p: nat)
    requires |pat| > 0 && |rep| > 0 && Disjoint(rep, pat)
    ensures !OccursAt(Replace(s, pat, rep), pat, p)
    decreases |s|
  {
    if |s| < |pat| {
    } else if s[..|pat|] == pat {
      var tail := Replace(s[|pat|..], pat, rep);
      assert Replace(s, pat, rep) == rep + tail;
      if p < |rep| {
        NoneInsideRep(rep, tail, pat, p);
      } else {
        ReplaceLeavesNoneAt(s[|pat|..], pat, rep, p - |rep|);
        OccursAfter(rep, tail, pat, p);
      }
    } else {
      var tail := Replace(s[1..], pat, rep);
      assert Replace(s, pat, rep) == [s[0]] + tail;
      if p == 0 {
        NoneAtStart(s, pat, rep);
      } else {
        ReplaceLeavesNoneAt(s[1..], pat, rep, p - 1);
        OccursAfter([s[0]], tail, pat, p);
      }
    }
  }

  /** No occurrence of the pattern starts inside a leading replacement. */
  lemma NoneInsideRep(rep: string, tail: string, pat: string, p: nat)
    requires |pat| > 0 && Disjoint(rep, pat) && p < |rep|
    ensures !OccursAt(rep + tail, pat, p)
  {
    if OccursAt(rep + tail, pat, p) {
      OccurrenceInsideRep(rep, tail, pat, p);
      assert false;
    }
  }

  /** Past a prefix, an occurrence is one in what follows it. */
  lemma OccursAfter(front: string, tail: string, pat: string, p: nat)
    requires |front| <= p
    ensures OccursAt(front + tail, pat, p) <==> OccursAt(tail, pat, p - |front|)
  {
    if p + |pat| <= |front + tail| {
      assert (front + tail)[p..p + |pat|] == tail[p - |front|..p - |front| + |pat|];
    }
  }

  /** Where the input does not start with the pattern, neither does the result. */
  lemma NoneAtStart(s: string, pat: string, rep: string)
    requires |pat| > 0 && |rep| > 0 && Disjoint(rep, pat)
    requires |s| >= |pat| && s[..|pat|] != pat
    ensures !OccursAt([s[0]] + Replace(s[1..], pat, rep), pat, 0)
  {
    var tail := Replace(s[1..], pat, rep);
    var r := [s[0]] + tail;
    if OccursAt(r, pat, 0) {
      assert tail[..|pat| - 1] == pat[1..];
      assert s[..|pat|] == [s[0]] + s[1..][..|pat| - 1];
      assert pat == [pat[0]] + pat[1..];
      ReplaceKeepsPatternPrefix(s[1..], pat, rep, pat[1..]);
      assert false;
    }
  }

  /** After the replacement no occurrence of the pattern remains anywhere. */
  lemma ReplaceRemovesAll(s: string, pat: string, rep: string)
    requires |pat| > 0 && |rep| > 0 && Disjoint(rep, pat)
    ensures !Contains(Replace(s, pat, rep), pat)
  {
    forall p: nat ensures !OccursAt(Replace(s, pat, rep), pat, p) {
      ReplaceLeavesNoneAt(s, pat, rep, p);
    }
  }

  /** A string without the pattern is left as it is. */
  lemma {:induction false} ReplaceWithoutPattern(s: string, pat: string, rep: string)
    requires |pat| > 0 && !Contains(s, pat)
    ensures Replace(s, pat, rep) == s
    decreases |s|
  {
    if |s| >= |pat| {
      assert !OccursAt(s, pat, 0);
      assert !Contains(s[1..], pat) by {
        forall p: nat | OccursAt(s[1..], pat, p) ensures OccursAt(s, pat, p + 1) {
          assert s[1..][p..p + |pat|] == s[p + 1..p + 1 + |pat|];
        }
      }
      ReplaceWithoutPattern(s[1..], pat, rep);
      assert s == [s[0]] + s[1..];
    }
  }

  function DigitChar(d: nat): (c: char)
    requires d < 10
    ensures '0' <= c <= '9' && c as int - '0' as int == d
  {
    "0123456789"[d]
  }

  /** `str(n)` for a natural number: its decimal digits, most significant first. */
  function NatToString(n: nat): (s: string)
    ensures |s| > 0
    ensures forall i :: 0 <= i < |s| ==> '0' <= s[i] <= '9'
    ensures |s| > 1 ==> s[0] != '0'
    decreases n
  {
    if n < 10 then [DigitChar(n)] else NatToString(n / 10) + [DigitChar(n % 10)]
  }

  /** The value of a string of decimal digits. */
  function DecimalValue(s: string): nat
    requires forall i :: 0 <= i < |s| ==> '0' <= s[i] <= '9'
  {
    if |s| == 0 then 0
    else 10 * DecimalValue(s[..|s| - 1]) + (s[|s| - 1] as int - '0' as int)
  }

  /** Reading the printed digits back gives the number. */
  lemma {:induction false} NatToStringRoundTrip(n: nat)
    ensures DecimalValue(NatToString(n)) == n
    decreases n
  {
    if n >= 10 {
      NatToStringRoundTrip(n / 10);
      var s := NatToString(n);
      assert s[..|s| - 1] == NatToString(n / 10);
    }
  }

  /** The digits never contain a character of the placeholder. */
  lemma DigitsAvoidPlaceholder(n: nat)
    ensures Disjoint(NatToString(n), Placeholder)
  {
  }

  // ---------------------------------------------------------------------
  // The emitted lines, for any comment and template lists
  // ---------------------------------------------------------------------

  /** A template instantiated for one size. */
  function Instance(template: string, size: nat): string {
    Replace(template, Placeholder, NatToString(size))
  }

  function Banner(argv0: string): string {
    "// Asserts generate by: " + argv0 + "\n"
  }

  /** The comment and the commented template of the first k checks. */
  function HeaderEntries(comments: seq<string>, templates: seq<string>, k: nat): seq<string>
    requires k <= |comments| && k <= |templates|
  {
    if k == 0 then []
    else HeaderEntries(comments, templates, k - 1)
         + [comments[k - 1], "// " + templates[k - 1] + "\n"]
  }

  function Header(argv0: string, comments: seq<string>, templates: seq<string>, n: nat): seq<string>
    requires n <= |comments| && n <= |templates|
  {
    [Banner(argv0)] + HeaderEntries(comments, templates, n) + ["\n\n"]
  }

  /** The first j templates instantiated for one size. */
  function Instances(templates: seq<string>, size: nat, j: nat): seq<string>
    requires j <= |templates|
  {
    if j == 0 then [] else Instances(templates, size, j - 1) + [Instance(templates[j - 1], size)]
  }

  /** The block printed for each size: every template, then a blank line. */
  function Group(templates: seq<string>, size: nat): seq<string> {
    Instances(templates, size, |templates|) + ["\n"]
  }

  function Body(templates: seq<string>, sizes: seq<nat>): seq<string> {
    if |sizes| == 0 then []
    else Body(templates, sizes[..|sizes| - 1]) + Group(templates, sizes[|sizes| - 1])
  }

  /** The text that a sequence of print calls writes. */
  function Stdout(calls: seq<string>): string {
    if |calls| == 0 then "" else Stdout(calls[..|calls| - 1]) + calls[|calls| - 1] + "\n"
  }

  /**
   * The two emission loops: the banner, the comment and commented template
   * of each of the first n checks, "\n\n", then one group per size.
   */
  method Emit(argv0: string, comments: seq<string>, templates: seq<string>, sizes: seq<nat>, n: nat)
    returns (calls: seq<string>)
    requires n <= |comments| && n <= |templates|
    ensures calls == Header(argv0, comments, templates, n) + Body(templates, sizes)
  {
    calls := EmitHeader(argv0, comments, templates, n);
    ghost var header := calls;
    var k := 0;
    while k < |sizes|
      invariant 0 <= k <= |sizes|
      invariant calls == header + Body(templates, sizes[..k])
    {
      var group := EmitGroup(templates, sizes[k]);
      calls := calls + group;
      assert sizes[..k + 1][..k] == sizes[..k];
      k := k + 1;
    }
    assert sizes[..|sizes|] == sizes;
  }

  /** The first loop: the banner, each check's comment and commented template, then "\n\n". */
  method EmitHeader(argv0: string, comments: seq<string>, templates: seq<string>, n: nat)
    returns (calls: seq<string>)
    requires n <= |comments| && n <= |templates|
    ensures calls == Header(argv0, comments, templates, n)
  {
    calls := [Banner(argv0)];
    var i := 0;
    while i < n
      invariant 0 <= i <= n
      invariant calls == [Banner(argv0)] + HeaderEntries(comments, templates, i)
    {
      calls := calls + [comments[i]];
      calls := calls + ["// " + templates[i] + "\n"];
      i := i + 1;
    }
    calls := calls + ["\n\n"];
  }

  /** The inner loop of the second: every template for one size, then a blank line. */
  method EmitGroup(templates: seq<string>, size: nat) returns (group: seq<string>)
    ensures group == Group(templates, size)
  {
    group := [];
    var j := 0;
    while j < |templates|
      invariant 0 <= j <= |templates|
      invariant group == Instances(templates, size, j)
    {
      group := group + [Replace(templates[j], Placeholder, NatToString(size))];
      j := j + 1;
    }
    group := group + ["\n"];
  }

  /** The script as shipped, run with program name argv0. */
  method Generate(argv0: string) returns (calls: seq<string>)
    ensures calls == Header(argv0, AssertComments, AssertTemplates, NumAsserts)
                     + Body(AssertTemplates, Sizes)
  {
    calls := Emit(argv0, AssertComments, AssertTemplates, Sizes, NumAsserts);
  }

  // ---------------------------------------------------------------------
  // Properties of the output
  // ---------------------------------------------------------------------

  lemma {:induction false} HeaderEntriesLayout(comments: seq<string>, templates: seq<string>, k: nat)
    requires k <= |comments| && k <= |templates|
    ensures |HeaderEntries(comments, templates, k)| == 2 * k
    ensures forall i :: 0 <= i < k ==>
              HeaderEntries(comments, templates, k)[2 * i] == comments[i] &&
              HeaderEntries(comments, templates, k)[2 * i + 1] == "// " + templates[i] + "\n"
  {
    if k > 0 {
      HeaderEntriesLayout(comments, templates, k - 1);
    }
  }

  /**
   * The header: the banner, then for each check in order its comment and its
   * template behind "// ", then "\n\n".
   */
  lemma HeaderLayout(argv0: string, comments: seq<string>, templates: seq<string>, n: nat)
    requires n <= |comments| && n <= |templates|
    ensures |Header(argv0, comments, templates, n)| == 2 + 2 * n
    ensures Header(argv0, comments, templates, n)[0] == Banner(argv0)
    ensures forall i :: 0 <= i < n ==>
              Header(argv0, comments, templates, n)[1 + 2 * i] == comments[i] &&
              Header(argv0, comments, templates, n)[2 + 2 * i] == "// " + templates[i] + "\n"
    ensures Header(argv0, comments, templates, n)[1 + 2 * n] == "\n\n"
  {
    HeaderEntriesLayout(comments, templates, n);
  }

  lemma {:induction false} InstancesLayout(templates: seq<string>, size: nat, j: nat)
    requires j <= |templates|
    ensures |Instances(templates, size, j)| == j
    ensures forall i :: 0 <= i < j ==> Instances(templates, size, j)[i] == Instance(templates[i], size)
  {
    if j > 0 {
      InstancesLayout(templates, size, j - 1);
    }
  }

  /**
   * With four templates, the size at position k of the list owns the five
   * lines from 5k: its four checks in template order, then the blank line.
   */
  lemma {:induction false} BodyLayout(templates: seq<string>, sizes: seq<nat>)
    requires |templates| == NumAsserts
    ensures |Body(templates, sizes)| == 5 * |sizes|
    ensures forall k, i :: 0 <= k < |sizes| && 0 <= i < NumAsserts ==>
              Body(templates, sizes)[5 * k + i] == Instance(templates[i], sizes[k])
    ensures forall k :: 0 <= k < |sizes| ==> Body(templates, sizes)[5 * k + 4] == "\n"
    decreases |sizes|
  {
    if |sizes| > 0 {
      var init := sizes[..|sizes| - 1];
      var last := sizes[|sizes| - 1];
      BodyLayout(templates, init);
      InstancesLayout(templates, last, NumAsserts);
      var front := Body(templates, init);
      var g := Group(templates, last);
      var body := Body(templates, sizes);
      assert body == front + g;
      assert |g| == 5 && g[4] == "\n";
      forall k, i | 0 <= k < |sizes| && 0 <= i < NumAsserts
        ensures body[5 * k + i] == Instance(templates[i], sizes[k])
      {
        if k < |init| {
          assert sizes[k] == init[k];
          assert body[5 * k + i] == front[5 * k + i];
        } else {
          assert body[5 * k + i] == g[i];
        }
      }
      forall k | 0 <= k < |sizes| ensures body[5 * k + 4] == "\n" {
        if k < |init| {
          assert body[5 * k + 4] == front[5 * k + 4];
        } else {
          assert body[5 * k + 4] == g[4];
        }
      }
    }
  }

  /** The shipped script prints 4 * 33 = 132 check lines, one per (size, template) pair. */
  lemma ShippedBodyLayout()
    ensures |AssertTemplates| == NumAsserts && |Sizes| == 33
    ensures |Body(AssertTemplates, Sizes)| == 5 * 33
    ensures forall k, i :: 0 <= k < 33 && 0 <= i < NumAsserts ==>
              Body(AssertTemplates, Sizes)[5 * k + i] == Instance(AssertTemplates[i], Sizes[k])
  {
    BodyLayout(AssertTemplates, Sizes);
  }

  /** An instantiated template is free of the placeholder. */
  lemma InstanceHasNoPlaceholder(template: string, size: nat)
    ensures !Contains(Instance(template, size), Placeholder)
  {
    DigitsAvoidPlaceholder(size);
    ReplaceRemovesAll(template, Placeholder, NatToString(size));
  }

  /** No line of the body contains the placeholder. */
  lemma BodyHasNoPlaceholder(templates: seq<string>, sizes: seq<nat>)
    requires |templates| == NumAsserts
    ensures forall l :: 0 <= l < |Body(templates, sizes)| ==>
              !Contains(Body(templates, sizes)[l], Placeholder)
  {
    BodyLayout(templates, sizes);
    forall l | 0 <= l < |Body(templates, sizes)|
      ensures !Contains(Body(templates, sizes)[l], Placeholder)
    {
      var k := l / 5;
      var i := l % 5;
      assert l == 5 * k + i;
      if i < NumAsserts {
        InstanceHasNoPlaceholder(templates[i], sizes[k]);
      } else {
        assert Body(templates, sizes)[l] == "\n";
      }
    }
  }

  /** Printing a concatenation prints the two parts one after the other. */
  lemma {:induction false} StdoutAppend(a: seq<string>, b: seq<string>)
    ensures Stdout(a + b) == Stdout(a) + Stdout(b)
    decreases |b|
  {
    if |b| == 0 {
      assert a + b == a;
    } else {
      var b0 := b[..|b| - 1];
      assert (a + b)[..|a + b| - 1] == a + b0;
      assert (a + b)[|a + b| - 1] == b[|b| - 1];
      StdoutAppend(a, b0);
    }
  }

  // ---------------------------------------------------------------------
  // The catalogue
  // ---------------------------------------------------------------------

  /** The catalogue is 8, then 16 * k for k = 1..32. */
  lemma SizesFormula(k: nat)
    requires k < |Sizes|
    ensures Sizes[k] == if k == 0 then 8 else 16 * k
  {
    assert k == 0 || k == 1 || k == 2 || k == 3 || k == 4 || k == 5 || k == 6 || k == 7
        || k == 8 || k == 9 || k == 10 || k == 11 || k == 12 || k == 13 || k == 14 || k == 15
        || k == 16 || k == 17 || k == 18 || k == 19 || k == 20 || k == 21 || k == 22 || k == 23
        || k == 24 || k == 25 || k == 26 || k == 27 || k == 28 || k == 29 || k == 30 || k == 31
        || k == 32;
  }

  /**
   * Strictly increasing positive multiples of 8: 8 and 16, then every
   * multiple of 16 from 32 to 512; 24 is not in the list.
   */
  lemma SizesShape()
    ensures |Sizes| == 33
    ensures forall a, b :: 0 <= a < b < |Sizes| ==> Sizes[a] < Sizes[b]
    ensures forall k :: 0 <= k < |Sizes| ==> Sizes[k] > 0 && Sizes[k] % 8 == 0
    ensures Sizes[0] == 8 && Sizes[1] == 16
    ensures forall s: nat :: 32 <= s <= 512 && s % 16 == 0 ==> s in Sizes
    ensures 24 !in Sizes
  {
    SizesAscending();
    forall k | 0 <= k < |Sizes| ensures Sizes[k] > 0 && Sizes[k] % 8 == 0 {
      SizesFormula(k);
    }
    SizesCover();
    SizesSkipTwentyFour();
  }

  lemma SizesAscending()
    ensures forall a, b :: 0 <= a < b < |Sizes| ==> Sizes[a] < Sizes[b]
  {
    forall a, b | 0 <= a < b < |Sizes| ensures Sizes[a] < Sizes[b] {
      SizesFormula(a);
      SizesFormula(b);
    }
  }

  lemma SizesCover()
    ensures forall s: nat :: 32 <= s <= 512 && s % 16 == 0 ==> s in Sizes
  {
    forall s: nat | 32 <= s <= 512 && s % 16 == 0 ensures s in Sizes {
      SizesFormula(s / 16);
      assert Sizes[s / 16] == s;
    }
  }

  lemma SizesSkipTwentyFour()
    ensures 24 !in Sizes
  {
    if 24 in Sizes {
      var k :| 0 <= k < |Sizes| && Sizes[k] == 24;
      SizesFormula(k);
      assert false;
    }
  }

  /** Every check the script generates holds for the traits of its size. */
  lemma GeneratedChecksHold(k: nat)
    requires k < |Sizes|
    ensures Sizes[k] < Two64
    ensures SlabTraits.AllAsserts(Sizes[k], SlabTraits.ObjSlabTraits(Sizes[k]))
  {
    SizesFormula(k);
    var s := Sizes[k];
    if s <= 32 {
      SlabTraits.SpecialisedTraitsHold(s);
    } else {
      assert SlabTraits.ObjSlabTraits(s) == SlabTraits.GenericTraits(s);
      SlabTraits.GenericAssertsIff(s);
    }
  }
}
