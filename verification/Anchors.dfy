/**
  Heading anchors (tools/check_docs_links.py, `markdown_anchors`): each heading's slug is made unique by
  a counter that is kept per slug and consulted through the table of all anchors given so far.
*/
module Anchors {
  import opened Decimal

  type Counts = map<string, nat>

  /** The taken numbered forms of `slug` beyond `k`: what the search can still run into. */
  ghost function Ahead(taken: set<string>, slug: string, k: nat): set<string> {
    set t | t in taken && exists m: nat :: k < m && t == Suffixed(slug, m)
  }

  lemma AheadShrinks(taken: set<string>, slug: string, k: nat)
    requires Suffixed(slug, k + 1) in taken
    ensures |Ahead(taken, slug, k + 1)| < |Ahead(taken, slug, k)|
  {
    var t := Suffixed(slug, k + 1);
    assert t in Ahead(taken, slug, k);
    forall m: nat | k + 1 < m ensures t != Suffixed(slug, m) {
      if t == Suffixed(slug, m) {
        SuffixedInjective(slug, k + 1, slug, m);
      }
    }
    Smaller(Ahead(taken, slug, k + 1), Ahead(taken, slug, k), t);
  }

  lemma Smaller(a: set<string>, b: set<string>, t: string)
    requires a <= b && t in b && t !in a
    ensures |a| < |b|
  {
    assert a <= b - {t};
    Subset(a, b - {t});
  }

  lemma {:induction false} Subset(a: set<string>, b: set<string>)
    requires a <= b
    ensures |a| <= |b|
  {
    if a != {} {
      var x :| x in a;
      Subset(a - {x}, b - {x});
    }
  }

  /** The smallest number beyond `k` whose numbered form is free. */
  function FirstFree(taken: set<string>, slug: string, k: nat): (m: nat)
    ensures k < m && Suffixed(slug, m) !in taken
    ensures forall i :: k < i < m ==> Suffixed(slug, i) in taken
    decreases |Ahead(taken, slug, k)|
  {
    if Suffixed(slug, k + 1) in taken then
      AheadShrinks(taken, slug, k);
      FirstFree(taken, slug, k + 1)
    else k + 1
  }

  datatype Given = Given(anchor: string, counts: Counts)

  /** The anchor of one heading, and the table afterwards. */
  function Assign(counts: Counts, slug: string): (g: Given)
    ensures g.anchor !in counts
    ensures g.counts.Keys == counts.Keys + {g.anchor}
  {
    if slug !in counts then Given(slug, counts[slug := 0])
    else
      var m := FirstFree(counts.Keys, slug, counts[slug]);
      Given(Suffixed(slug, m), counts[slug := m][Suffixed(slug, m) := 0])
  }

  /** The search for a repeated slug has at most one round less than there are anchors. */
  lemma AheadFits(counts: Counts, slug: string, k: nat)
    requires slug in counts
    ensures |Ahead(counts.Keys, slug, k)| < |counts|
  {
    assert forall m: nat :: |Suffixed(slug, m)| > |slug|;
    Smaller(Ahead(counts.Keys, slug, k), counts.Keys, slug);
  }

  /** Where the search for one heading's anchor stands after some rounds. */
  ghost predicate Searching(counts: Counts, slug: string, candidate: string, updated: Counts, rounds: nat) {
    && updated.Keys == counts.Keys
    && rounds <= |counts|
    && (rounds == 0 ==> candidate == slug && updated == counts)
    && (rounds > 0 ==>
          && slug in counts
          && var k := counts[slug] + rounds;
             && updated == counts[slug := k]
             && candidate == Suffixed(slug, k)
             && rounds + |Ahead(counts.Keys, slug, k - 1)| <= |counts|
             && FirstFree(counts.Keys, slug, counts[slug]) == FirstFree(counts.Keys, slug, k - 1))
  }

  /** A round meets a taken anchor, so one anchor less is ahead. */
  lemma SearchGoesOn(counts: Counts, slug: string, candidate: string, updated: Counts, rounds: nat)
    requires Searching(counts, slug, candidate, updated, rounds) && candidate in updated
    ensures slug in updated && rounds < |counts|
    ensures var k := updated[slug] + 1;
            Searching(counts, slug, Suffixed(slug, k), updated[slug := k], rounds + 1)
  {
    hide Suffixed;
    hide Ahead;
    if rounds == 0 {
      AheadFits(counts, slug, counts[slug]);
      assert counts[slug := counts[slug] + 1] == updated[slug := updated[slug] + 1];
    } else {
      AheadShrinks(counts.Keys, slug, updated[slug] - 1);
      assert counts[slug := updated[slug] + 1] == updated[slug := updated[slug] + 1];
    }
  }

  lemma SearchEnds(counts: Counts, slug: string, candidate: string, updated: Counts, rounds: nat)
    requires Searching(counts, slug, candidate, updated, rounds) && candidate !in updated
    ensures Given(candidate, updated[candidate := 0]) == Assign(counts, slug)
    ensures slug in counts ==> rounds > 0 && updated[slug] == counts[slug] + rounds && candidate != slug
    ensures slug !in counts ==> rounds == 0
  {
    hide Ahead;
    if rounds > 0 {
      assert |Suffixed(slug, updated[slug])| > |slug|;
    }
    hide Suffixed;
  }

  /**
    The uniqueness loop of one heading. It runs at most once per anchor already given, each round raising the
    slug's counter by one.
   */
  method Deduplicate(counts: Counts, slug: string) returns (candidate: string, updated: Counts, ghost rounds: nat)
    ensures Given(candidate, updated) == Assign(counts, slug)
    ensures candidate !in counts && updated.Keys == counts.Keys + {candidate}
    ensures candidate == slug || exists k: nat :: k >= 1 && candidate == Suffixed(slug, k)
    ensures rounds <= |counts|
    ensures rounds == if slug in counts then updated[slug] - counts[slug] else 0
  {
    candidate, updated, rounds := slug, counts, 0;
    hide Assign;
    while candidate in updated
      invariant Searching(counts, slug, candidate, updated, rounds)
      decreases |counts| - rounds
    {
      SearchGoesOn(counts, slug, candidate, updated, rounds);
      hide Searching;
      updated := updated[slug := (if slug in updated then updated[slug] else 0) + 1];
      candidate := Suffixed(slug, updated[slug]);
      rounds := rounds + 1;
    }
    SearchEnds(counts, slug, candidate, updated, rounds);
    updated := updated[candidate := 0];
  }

  // ---------------------------------------------------------------- a whole document

  /** The table after all headings. */
  function Table(slugs: seq<string>): Counts {
    if slugs == [] then map[] else Assign(Table(slugs[..|slugs| - 1]), slugs[|slugs| - 1]).counts
  }

  /** The anchor of every heading, in document order. */
  function Names(slugs: seq<string>): (names: seq<string>)
    ensures |names| == |slugs|
  {
    if slugs == [] then []
    else Names(slugs[..|slugs| - 1]) + [Assign(Table(slugs[..|slugs| - 1]), slugs[|slugs| - 1]).anchor]
  }

  method MarkdownAnchors(ids: set<string>, slugs: seq<string>) returns (anchors: set<string>)
    ensures forall t :: t in anchors <==> t in ids || t in Names(slugs)
  {
    anchors := ids;
    var counts: Counts := map[];
    for i := 0 to |slugs|
      invariant counts == Table(slugs[..i])
      invariant forall t :: t in anchors <==> t in ids || t in Names(slugs[..i])
    {
      var candidate, updated, _ := Deduplicate(counts, slugs[i]);
      assert slugs[..i + 1][..i] == slugs[..i];
      assert Names(slugs[..i + 1]) == Names(slugs[..i]) + [candidate];
      counts := updated;
      anchors := anchors + {candidate};
    }
    assert slugs[..|slugs|] == slugs;
  }

  /** No two headings share an anchor, and the keys of the table are exactly the anchors given. */
  lemma {:induction false} NamesDistinct(slugs: seq<string>)
    ensures forall i, j :: 0 <= i < j < |slugs| ==> Names(slugs)[i] != Names(slugs)[j]
    ensures forall t :: t in Table(slugs) <==> t in Names(slugs)
    decreases |slugs|
  {
    if slugs == [] {
    } else {
      NamesDistinct(slugs[..|slugs| - 1]);
    }
  }

  // ---------------------------------------------------------------- the closed form

  /** How often `slug` occurs. */
  function Occurrences(slugs: seq<string>, slug: string): nat {
    if slugs == [] then 0
    else Occurrences(slugs[..|slugs| - 1], slug) + if slugs[|slugs| - 1] == slug then 1 else 0
  }

  /** `slug`, then `slug-1`, `slug-2`, ... */
  function Numbered(slug: string, j: nat): string {
    if j == 0 then slug else Suffixed(slug, j)
  }

  /** Every heading gets its slug, numbered by how often the slug occurred before. */
  ghost predicate ClosedForm(slugs: seq<string>) {
    forall i :: 0 <= i < |slugs| ==> Names(slugs)[i] == Numbered(slugs[i], Occurrences(slugs[..i], slugs[i]))
  }

  /** Some slug is literally the numbered form that a repeated slug would be given. */
  ghost predicate Collision(slugs: seq<string>, i: nat, s: string, k: nat) {
    i < |slugs| && 1 <= k < Occurrences(slugs, s) && slugs[i] == Suffixed(s, k)
  }

  ghost predicate NoCollision(slugs: seq<string>) {
    forall i: nat, s, k: nat :: !Collision(slugs, i, s, k)
  }

  lemma {:induction false} OccurrencesGrow(slugs: seq<string>, n: nat, s: string)
    requires n <= |slugs|
    ensures Occurrences(slugs[..n], s) <= Occurrences(slugs, s)
    decreases |slugs|
  {
    if n < |slugs| {
      OccurrencesGrow(slugs[..|slugs| - 1], n, s);
      assert slugs[..|slugs| - 1][..n] == slugs[..n];
    } else {
      assert slugs[..n] == slugs;
    }
  }

  /** The position of the k-th occurrence. */
  lemma {:induction false} FindOccurrence(slugs: seq<string>, s: string, k: nat) returns (i: nat)
    requires k < Occurrences(slugs, s)
    ensures i < |slugs| && slugs[i] == s && Occurrences(slugs[..i], s) == k
    decreases |slugs|
  {
    var init := slugs[..|slugs| - 1];
    if k < Occurrences(init, s) {
      i := FindOccurrence(init, s, k);
      assert init[..i] == slugs[..i];
    } else {
      i := |slugs| - 1;
    }
  }

  /** What the table holds when there is no collision. */
  ghost predicate Regular(slugs: seq<string>, counts: Counts) {
    && (forall s :: Occurrences(slugs, s) > 0 ==> s in counts && counts[s] == Occurrences(slugs, s) - 1)
    && (forall t :: t in counts ==>
          Occurrences(slugs, t) > 0 || exists s, k: nat :: 1 <= k < Occurrences(slugs, s) && t == Suffixed(s, k))
  }

  /** One more heading. */
  lemma OccurrencesAppend(init: seq<string>, slug: string)
    ensures forall s :: Occurrences(init + [slug], s) == Occurrences(init, s) + if s == slug then 1 else 0
  {
    assert (init + [slug])[..|init|] == init;
  }

  /** In a regular table without collisions the next heading gets the numbered form. */
  lemma RegularAssign(init: seq<string>, slug: string, counts: Counts)
    requires Regular(init, counts) && NoCollision(init + [slug])
    ensures Assign(counts, slug).anchor == Numbered(slug, Occurrences(init, slug))
  {
    if Occurrences(init, slug) == 0 {
      SlugIsFree(init, slug, counts);
      hide *;
      AssignFresh(counts, slug);
    } else {
      NumberedIsFree(init, slug, counts);
      AssignRepeated(counts, slug, Occurrences(init, slug));
      hide Occurrences;
    }
  }

  lemma AssignFresh(counts: Counts, slug: string)
    requires slug !in counts
    ensures Assign(counts, slug).anchor == Numbered(slug, 0)
  {
  }

  lemma AssignRepeated(counts: Counts, slug: string, j: nat)
    requires slug in counts && counts[slug] + 1 == j && Suffixed(slug, j) !in counts
    ensures Assign(counts, slug).anchor == Numbered(slug, j)
  {
    hide Suffixed;
  }

  lemma SlugIsFree(init: seq<string>, slug: string, counts: Counts)
    requires Regular(init, counts) && NoCollision(init + [slug]) && Occurrences(init, slug) == 0
    ensures slug !in counts
  {
    hide Suffixed;
    OccurrencesAppend(init, slug);
    hide Occurrences;
    forall s, k: nat | 1 <= k < Occurrences(init, s) ensures slug != Suffixed(s, k) {
      assert !Collision(init + [slug], |init|, s, k);
    }
  }

  lemma NumberedIsFree(init: seq<string>, slug: string, counts: Counts)
    requires Regular(init, counts) && NoCollision(init + [slug]) && Occurrences(init, slug) > 0
    ensures Suffixed(slug, Occurrences(init, slug)) !in counts
  {
    var all, j := init + [slug], Occurrences(init, slug);
    assert all[..|all| - 1] == init;
    var t := Suffixed(slug, j);
    forall i | 0 <= i < |init| ensures init[i] != t {
      OccurrencesAppend(init, slug);
      assert !Collision(all, i, slug, j);
    }
    AbsentMeansZero(init, t);
    forall s, k: nat | 1 <= k < Occurrences(init, s) ensures t != Suffixed(s, k) {
      if t == Suffixed(s, k) {
        SuffixedInjective(slug, j, s, k);
      }
    }
  }

  lemma {:induction false} AbsentMeansZero(slugs: seq<string>, t: string)
    requires forall i :: 0 <= i < |slugs| ==> slugs[i] != t
    ensures Occurrences(slugs, t) == 0
    decreases |slugs|
  {
    if slugs == [] {
    } else {
      AbsentMeansZero(slugs[..|slugs| - 1], t);
    }
  }

  lemma RegularAfter(init: seq<string>, slug: string, counts: Counts)
    requires Regular(init, counts) && NoCollision(init + [slug])
    requires Assign(counts, slug).anchor == Numbered(slug, Occurrences(init, slug))
    ensures Regular(init + [slug], Assign(counts, slug).counts)
  {
    hide Suffixed;
    hide FirstFree;
    var all, j := init + [slug], Occurrences(init, slug);
    OccurrencesAppend(init, slug);
    hide Occurrences;
    var g := Assign(counts, slug);
    AssignedCounts(counts, slug);
    forall s | Occurrences(all, s) > 0
      ensures s in g.counts && g.counts[s] == Occurrences(all, s) - 1
    {
    }
    forall t | t in g.counts
      ensures Occurrences(all, t) > 0 || exists s, k: nat :: 1 <= k < Occurrences(all, s) && t == Suffixed(s, k)
    {
      if t == g.anchor {
        assert Occurrences(all, slug) == j + 1;
        assert t == Numbered(slug, j);
      } else if Occurrences(init, t) == 0 {
        var s, k: nat :| 1 <= k < Occurrences(init, s) && t == Suffixed(s, k);
        assert k < Occurrences(all, s);
      }
    }
  }

  /** The table after one heading, value by value. */
  lemma AssignedCounts(counts: Counts, slug: string)
    ensures var g := Assign(counts, slug);
            && (forall t :: t in counts && t != slug ==> g.counts[t] == counts[t])
            && g.counts[g.anchor] == 0
            && (slug in counts ==> g.anchor == Suffixed(slug, g.counts[slug]))
            && (slug !in counts ==> g.anchor == slug)
  {
    var g := Assign(counts, slug);
    if slug in counts {
      assert |Suffixed(slug, FirstFree(counts.Keys, slug, counts[slug]))| > |slug|;
    }
  }

  lemma {:induction false} NoCollisionMeansClosedForm(slugs: seq<string>)
    requires NoCollision(slugs)
    ensures Regular(slugs, Table(slugs)) && ClosedForm(slugs)
    decreases |slugs|
  {
    if slugs == [] {
    } else {
      var init, slug := slugs[..|slugs| - 1], slugs[|slugs| - 1];
      assert slugs == init + [slug];
      forall i: nat, s, k: nat ensures !Collision(init, i, s, k) {
        OccurrencesGrow(slugs, |init|, s);
        assert !Collision(slugs, i, s, k);
      }
      NoCollisionMeansClosedForm(init);
      RegularAssign(init, slug, Table(init));
      RegularAfter(init, slug, Table(init));
      forall i | 0 <= i < |slugs|
        ensures Names(slugs)[i] == Numbered(slugs[i], Occurrences(slugs[..i], slugs[i]))
      {
        if i < |init| {
          assert init[..i] == slugs[..i];
        }
      }
    }
  }

  lemma CollisionBreaksClosedForm(slugs: seq<string>, i: nat, s: string, k: nat)
    requires Collision(slugs, i, s, k)
    ensures !ClosedForm(slugs)
  {
    var q := FindOccurrence(slugs, s, k);
    var t := slugs[i];
    OccursAt(slugs, i);
    var p := FindOccurrence(slugs, t, 0);
    assert |t| > |s|;
    assert ClosedForm(slugs) ==> Names(slugs)[q] == Numbered(s, k) && Names(slugs)[p] == Numbered(t, 0);
    NamesDistinct(slugs);
  }

  lemma {:induction false} OccursAt(slugs: seq<string>, i: nat)
    requires i < |slugs|
    ensures Occurrences(slugs, slugs[i]) > 0
    decreases |slugs|
  {
    if i < |slugs| - 1 {
      OccursAt(slugs[..|slugs| - 1], i);
    }
  }

  /**
    The closed form holds exactly when no slug of the document is the numbered form that a
    repeated slug would receive.
   */
  lemma ClosedFormExactly(slugs: seq<string>)
    ensures ClosedForm(slugs) <==> NoCollision(slugs)
  {
    if NoCollision(slugs) {
      NoCollisionMeansClosedForm(slugs);
    } else {
      var i: nat, s, k: nat :| Collision(slugs, i, s, k);
      CollisionBreaksClosedForm(slugs, i, s, k);
    }
  }

  lemma NextHeading(init: seq<string>, slug: string)
    ensures Names(init + [slug]) == Names(init) + [Assign(Table(init), slug).anchor]
    ensures Table(init + [slug]) == Assign(Table(init), slug).counts
  {
    assert (init + [slug])[..|init|] == init;
    hide Assign;
  }

  /** What a heading is given when its slug is new, or repeated with its next number free. */
  lemma AssignFree(counts: Counts, slug: string)
    ensures slug !in counts ==> Assign(counts, slug) == Given(slug, counts[slug := 0])
    ensures slug in counts && Suffixed(slug, counts[slug] + 1) !in counts ==>
              var k := counts[slug] + 1;
              Assign(counts, slug) == Given(Suffixed(slug, k), counts[slug := k][Suffixed(slug, k) := 0])
  {
    hide Suffixed;
  }

  lemma LiteralCollides(slugs: seq<string>, i: nat, s: string, k: nat)
    requires i < |slugs| && slugs[i] == Suffixed(s, k) && 1 <= k < Occurrences(slugs, s)
    ensures !ClosedForm(slugs)
  {
    CollisionBreaksClosedForm(slugs, i, s, k);
  }

  /** Headings `a`, `a`, `a-1`: the third finds its own slug taken and becomes `a-1-1`, not `a-1`. */
  lemma RepeatedThenLiteral()
    ensures var one := Suffixed("a", 1);
            && Names(["a", "a", one]) == ["a", one, Suffixed(one, 1)]
            && !ClosedForm(["a", "a", one])
  {
    var one := Suffixed("a", 1);
    var two := Suffixed(one, 1);
    assert |"a"| < |one| < |two|;
    assert [] + ["a"] == ["a"] && ["a"] + ["a"] == ["a", "a"] && ["a", "a"] + [one] == ["a", "a", one];
    OccurrencesAppend([], "a");
    OccurrencesAppend(["a"], "a");
    OccurrencesAppend(["a", "a"], one);
    assert Table([]) == map[] && Names([]) == [] && Occurrences([], "a") == 0;
    hide *;
    NextHeading([], "a");
    AssignFree(map[], "a");
    NextHeading(["a"], "a");
    AssignFree(map["a" := 0], "a");
    NextHeading(["a", "a"], one);
    AssignFree(map["a" := 1, one := 0], one);
    LiteralCollides(["a", "a", one], 2, "a", 1);
  }

  /** The anchors of that document, spelled out. */
  lemma RepeatedThenLiteralText()
    ensures Names(["a", "a", "a-1"]) == ["a", "a-1", "a-1-1"]
  {
    assert Suffixed("a", 1) == "a-1" && Suffixed("a-1", 1) == "a-1-1";
    hide Names;
    RepeatedThenLiteral();
  }
}
