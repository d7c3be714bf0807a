/** The model catalogue: the embedded entries with the synchronised official entries laid over them. */
module Catalog {
  import opened Wrappers
  import opened Json
  import opened Sequences
  import opened Text

  const BASE_INSTRUCTIONS := "base_instructions"

  function Slug(model: Value): Option<string> {
    if model.Obj? then StrAt(model.fields, "slug") else None
  }

  /** The model is listed under this slug, ASCII case aside. */
  predicate HasSlug(model: Value, slug: string) {
    Slug(model).Some? && Lower(Slug(model).value) == Lower(slug)
  }

  predicate Lists(models: seq<Value>, slug: string) {
    exists i :: 0 <= i < |models| && HasSlug(models[i], slug)
  }

  predicate Known(known: seq<string>, slug: string) {
    exists i :: 0 <= i < |known| && Lower(known[i]) == Lower(slug)
  }

  /** The first model listed under a slug. */
  function Find(models: seq<Value>, slug: string): Option<Value> {
    if models == [] then None
    else if HasSlug(models[0], slug) then Some(models[0])
    else Find(models[1..], slug)
  }

  function Base(model: Value): Option<Value> {
    if model.Obj? && BASE_INSTRUCTIONS in model.fields then Some(model.fields[BASE_INSTRUCTIONS]) else None
  }

  /** `merge_official_entry`. */
  function MergeEntry(embedded: Option<Value>, official: Value): Value {
    if embedded.Some? && official.Obj? && Base(official).None? && Base(embedded.value).Some? then
      Obj(official.fields[BASE_INSTRUCTIONS := Base(embedded.value).value])
    else official
  }

  /** The official entries, each completed from the embedded entry of its slug. */
  function Overlaid(embedded: seq<Value>, overlay: seq<Value>): seq<Value> {
    if overlay == [] then []
    else
      var init, official := overlay[..|overlay| - 1], overlay[|overlay| - 1];
      var before := Overlaid(embedded, init);
      if Slug(official).None? then before
      else before + [MergeEntry(Find(embedded, Slug(official).value), official)]
  }

  /** An embedded entry stays when it has no slug, or its slug is neither overlaid nor was ever official. */
  predicate Stays(model: Value, overlay: seq<Value>, known: seq<string>) {
    Slug(model).Some? ==> !Lists(overlay, Slug(model).value) && !Known(known, Slug(model).value)
  }

  function Remaining(embedded: seq<Value>, overlay: seq<Value>, known: seq<string>): seq<Value> {
    if embedded == [] then []
    else
      var model := embedded[|embedded| - 1];
      var before := Remaining(embedded[..|embedded| - 1], overlay, known);
      if Stays(model, overlay, known) then before + [model] else before
  }

  /** `merge_catalog_with_official`. */
  function Merge(embedded: seq<Value>, overlay: seq<Value>, known: seq<string>): seq<Value> {
    if overlay == [] then embedded else Overlaid(embedded, overlay) + Remaining(embedded, overlay, known)
  }

  // ---------- the source's loops ----------

  method FindFirst(models: seq<Value>, slug: string) returns (found: Option<Value>)
    ensures found == Find(models, slug)
  {
    for i := 0 to |models|
      invariant Find(models, slug) == Find(models[i..], slug)
    {
      if HasSlug(models[i], slug) {
        return Some(models[i]);
      }
      assert models[i..][1..] == models[i + 1..];
    }
    found := None;
  }

  lemma ListsAppend(a: seq<Value>, b: seq<Value>, s: string)
    ensures Lists(a + b, s) <==> Lists(a, s) || Lists(b, s)
  {
    if Lists(a, s) {
      var i :| 0 <= i < |a| && HasSlug(a[i], s);
      assert (a + b)[i] == a[i];
    }
    if Lists(b, s) {
      var i :| 0 <= i < |b| && HasSlug(b[i], s);
      assert (a + b)[|a| + i] == b[i];
    }
  }

  lemma ListsSnoc(models: seq<Value>, model: Value)
    ensures forall s :: Lists(models + [model], s) <==> Lists(models, s) || HasSlug(model, s)
  {
    forall s ensures Lists(models + [model], s) <==> Lists(models, s) || HasSlug(model, s) {
      ListsAppend(models, [model], s);
      assert [model][0] == model;
    }
  }

  method MergeCatalogWithOfficial(embedded: seq<Value>, overlay: seq<Value>, known: seq<string>)
      returns (merged: seq<Value>)
    ensures merged == Merge(embedded, overlay, known)
  {
    if overlay == [] {
      return embedded;
    }
    var overridden: set<string> := {};
    merged := [];
    for i := 0 to |overlay|
      invariant merged == Overlaid(embedded, overlay[..i])
      invariant forall s :: Lower(s) in overridden <==> Lists(overlay[..i], s)
    {
      var official := overlay[i];
      assert overlay[..i + 1][..i] == overlay[..i];
      ListsSnoc(overlay[..i], official);
      assert overlay[..i + 1] == overlay[..i] + [official];
      var slug := Slug(official);
      if slug.Some? {
        overridden := overridden + {Lower(slug.value)};
        var existing := FindFirst(embedded, slug.value);
        merged := merged + [MergeEntry(existing, official)];
      }
    }
    assert overlay[..|overlay|] == overlay;
    for i := 0 to |embedded|
      invariant merged == Overlaid(embedded, overlay) + Remaining(embedded[..i], overlay, known)
    {
      var model := embedded[i];
      assert embedded[..i + 1][..i] == embedded[..i];
      var slug := Slug(model);
      if slug.None? || (Lower(slug.value) !in overridden && !Known(known, slug.value)) {
        merged := merged + [model];
      }
    }
    assert embedded[..|embedded|] == embedded;
  }

  // ---------- lookups in the merged catalogue ----------

  lemma {:induction false} FindAppend(a: seq<Value>, b: seq<Value>, s: string)
    ensures Find(a + b, s) == if Find(a, s).Some? then Find(a, s) else Find(b, s)
  {
    if a == [] {
      assert a + b == b;
    } else {
      assert (a + b)[1..] == a[1..] + b;
      FindAppend(a[1..], b, s);
    }
  }

  lemma {:induction false} FindLists(models: seq<Value>, s: string)
    ensures Find(models, s).Some? <==> Lists(models, s)
    ensures Find(models, s).Some? ==> Find(models, s).value in models && HasSlug(Find(models, s).value, s)
  {
    if models != [] {
      FindLists(models[1..], s);
      ListsAppend([models[0]], models[1..], s);
      assert models == [models[0]] + models[1..] && [models[0]][0] == models[0];
    }
  }

  lemma MergeEntryKeeps(embedded: Option<Value>, official: Value)
    ensures Slug(MergeEntry(embedded, official)) == Slug(official)
    ensures Base(official).Some? ==> MergeEntry(embedded, official) == official
    ensures official.Obj? && Base(official).None? ==>
              Base(MergeEntry(embedded, official)) == if embedded.Some? then Base(embedded.value) else None
    ensures official.Obj? ==>
              && MergeEntry(embedded, official).Obj?
              && MergeEntry(embedded, official).fields - {BASE_INSTRUCTIONS} == official.fields - {BASE_INSTRUCTIONS}
  {
  }

  lemma {:induction false} FindSameSlug(models: seq<Value>, s: string, t: string)
    requires Lower(s) == Lower(t)
    ensures Find(models, s) == Find(models, t)
  {
    if models != [] {
      FindSameSlug(models[1..], s, t);
    }
  }

  lemma {:induction false} FindOverlaid(embedded: seq<Value>, overlay: seq<Value>, s: string)
    ensures Find(Overlaid(embedded, overlay), s)
            == if Find(overlay, s).Some? then Some(MergeEntry(Find(embedded, s), Find(overlay, s).value)) else None
  {
    if overlay != [] {
      var init, official := overlay[..|overlay| - 1], overlay[|overlay| - 1];
      assert overlay == init + [official];
      FindOverlaid(embedded, init, s);
      FindAppend(init, [official], s);
      if Slug(official).Some? {
        var entry := MergeEntry(Find(embedded, Slug(official).value), official);
        MergeEntryKeeps(Find(embedded, Slug(official).value), official);
        FindAppend(Overlaid(embedded, init), [entry], s);
        if HasSlug(official, s) {
          FindSameSlug(embedded, s, Slug(official).value);
        }
      }
    }
  }

  lemma ListsSameSlug(models: seq<Value>, s: string, t: string)
    requires Lower(s) == Lower(t)
    ensures Lists(models, s) == Lists(models, t)
  {
    FindSameSlug(models, s, t);
    FindLists(models, s);
    FindLists(models, t);
  }

  lemma {:induction false} FindRemaining(embedded: seq<Value>, overlay: seq<Value>, known: seq<string>, s: string)
    ensures Find(Remaining(embedded, overlay, known), s)
            == if Lists(overlay, s) || Known(known, s) then None else Find(embedded, s)
  {
    if embedded != [] {
      var init, model := embedded[..|embedded| - 1], embedded[|embedded| - 1];
      assert embedded == init + [model];
      FindRemaining(init, overlay, known, s);
      FindAppend(init, [model], s);
      if HasSlug(model, s) {
        ListsSameSlug(overlay, s, Slug(model).value);
      }
      if Stays(model, overlay, known) {
        FindAppend(Remaining(init, overlay, known), [model], s);
      }
    }
  }

  /** What the merged catalogue answers for a slug: the official entry, completed from the embedded one,
      when the overlay lists it; nothing when it was official once and is not any more; and the
      embedded entry otherwise. */
  lemma MergedLookup(embedded: seq<Value>, overlay: seq<Value>, known: seq<string>, s: string)
    requires overlay != []
    ensures Find(Merge(embedded, overlay, known), s)
            == if Find(overlay, s).Some? then Some(MergeEntry(Find(embedded, s), Find(overlay, s).value))
               else if Known(known, s) then None
               else Find(embedded, s)
  {
    FindOverlaid(embedded, overlay, s);
    FindRemaining(embedded, overlay, known, s);
    FindAppend(Overlaid(embedded, overlay), Remaining(embedded, overlay, known), s);
    FindLists(overlay, s);
  }

  function OptionalBase(model: Option<Value>): Option<Value> {
    if model.Some? then Base(model.value) else None
  }

  /** Local base instructions survive: the entry listed for an overlaid slug is the first official one,
      except that base instructions it lacks are those of the embedded entry. */
  lemma LocalInstructionsSurvive(embedded: seq<Value>, overlay: seq<Value>, known: seq<string>, s: string)
    requires Lists(overlay, s)
    ensures Find(overlay, s).Some? && Find(Merge(embedded, overlay, known), s).Some?
    ensures var official, merged := Find(overlay, s).value, Find(Merge(embedded, overlay, known), s).value;
            && official.Obj? && merged.Obj?
            && merged.fields - {BASE_INSTRUCTIONS} == official.fields - {BASE_INSTRUCTIONS}
            && Base(merged) == (if Base(official).Some? then Base(official) else OptionalBase(Find(embedded, s)))
  {
    FindLists(overlay, s);
    MergedLookup(embedded, overlay, known, s);
    MergeEntryKeeps(Find(embedded, s), Find(overlay, s).value);
  }

  /** An embedded slug survives exactly when it is in the overlay or was never official. */
  lemma SurvivesExactly(embedded: seq<Value>, overlay: seq<Value>, known: seq<string>, s: string)
    requires overlay != [] && Lists(embedded, s)
    ensures Lists(Merge(embedded, overlay, known), s) <==> Lists(overlay, s) || !Known(known, s)
  {
    MergedLookup(embedded, overlay, known, s);
    FindLists(overlay, s);
    FindLists(Merge(embedded, overlay, known), s);
    FindLists(embedded, s);
  }

  // ---------- order and uniqueness ----------

  function Slugs(models: seq<Value>): seq<string> {
    if models == [] then []
    else
      var slug := Slug(models[|models| - 1]);
      var before := Slugs(models[..|models| - 1]);
      if slug.Some? then before + [slug.value] else before
  }

  function NeverOfficial(slugs: seq<string>, overlay: seq<Value>, known: seq<string>): seq<string> {
    if slugs == [] then []
    else
      var last := slugs[|slugs| - 1];
      var before := NeverOfficial(slugs[..|slugs| - 1], overlay, known);
      if Lists(overlay, last) || Known(known, last) then before else before + [last]
  }

  lemma {:induction false} SlugsAppend(a: seq<Value>, b: seq<Value>)
    ensures Slugs(a + b) == Slugs(a) + Slugs(b)
  {
    if b == [] {
      assert a + b == a;
    } else {
      assert (a + b)[..|a + b| - 1] == a + b[..|b| - 1];
      SlugsAppend(a, b[..|b| - 1]);
    }
  }

  lemma SlugsOne(model: Value)
    ensures Slugs([model]) == if Slug(model).Some? then [Slug(model).value] else []
  {
    assert [model][..0] == [];
  }

  lemma {:induction false} OverlaidSlugs(embedded: seq<Value>, overlay: seq<Value>)
    ensures Slugs(Overlaid(embedded, overlay)) == Slugs(overlay)
  {
    if overlay != [] {
      var init, official := overlay[..|overlay| - 1], overlay[|overlay| - 1];
      OverlaidSlugs(embedded, init);
      if Slug(official).Some? {
        var entry := MergeEntry(Find(embedded, Slug(official).value), official);
        MergeEntryKeeps(Find(embedded, Slug(official).value), official);
        SlugsAppend(Overlaid(embedded, init), [entry]);
        SlugsOne(entry);
      }
    }
  }

  lemma {:induction false} RemainingSlugs(embedded: seq<Value>, overlay: seq<Value>, known: seq<string>)
    ensures Slugs(Remaining(embedded, overlay, known)) == NeverOfficial(Slugs(embedded), overlay, known)
  {
    if embedded != [] {
      var init, model := embedded[..|embedded| - 1], embedded[|embedded| - 1];
      RemainingSlugs(init, overlay, known);
      if Stays(model, overlay, known) {
        SlugsAppend(Remaining(init, overlay, known), [model]);
        SlugsOne(model);
      }
      if Slug(model).Some? {
        assert Slugs(embedded)[..|Slugs(init)|] == Slugs(init);
      }
    }
  }

  /** The merged catalogue lists the overlay's slugs first and then the remaining embedded ones, both in
      their own order. */
  lemma MergedOrder(embedded: seq<Value>, overlay: seq<Value>, known: seq<string>)
    requires overlay != []
    ensures Slugs(Merge(embedded, overlay, known)) == Slugs(overlay) + NeverOfficial(Slugs(embedded), overlay, known)
  {
    SlugsAppend(Overlaid(embedded, overlay), Remaining(embedded, overlay, known));
    OverlaidSlugs(embedded, overlay);
    RemainingSlugs(embedded, overlay, known);
  }

  ghost predicate Unique(slugs: seq<string>) {
    forall i, j :: 0 <= i < j < |slugs| ==> Lower(slugs[i]) != Lower(slugs[j])
  }

  predicate Among(slugs: seq<string>, s: string) {
    exists i :: 0 <= i < |slugs| && Lower(slugs[i]) == Lower(s)
  }

  lemma AmongSnoc(slugs: seq<string>, slug: string, s: string)
    ensures Among(slugs + [slug], s) <==> Among(slugs, s) || Lower(slug) == Lower(s)
  {
    var more := slugs + [slug];
    assert more[|slugs|] == slug;
    if Among(slugs, s) {
      var i :| 0 <= i < |slugs| && Lower(slugs[i]) == Lower(s);
      assert more[i] == slugs[i];
    }
  }

  lemma {:induction false} SlugsLists(models: seq<Value>, s: string)
    ensures Among(Slugs(models), s) <==> Lists(models, s)
  {
    if models != [] {
      var init, model := models[..|models| - 1], models[|models| - 1];
      SlugsLists(init, s);
      ListsSnoc(init, model);
      assert models == init + [model];
      if Slug(model).Some? {
        AmongSnoc(Slugs(init), Slug(model).value, s);
      }
    }
  }

  lemma {:induction false} NeverOfficialFrom(slugs: seq<string>, overlay: seq<Value>, known: seq<string>)
    requires Unique(slugs)
    ensures var kept := NeverOfficial(slugs, overlay, known);
            && Unique(kept)
            && (forall i :: 0 <= i < |kept| ==> kept[i] in slugs && !Lists(overlay, kept[i]))
  {
    if slugs != [] {
      var init := slugs[..|slugs| - 1];
      NeverOfficialFrom(init, overlay, known);
      var kept := NeverOfficial(init, overlay, known);
      forall i | 0 <= i < |kept| ensures Lower(kept[i]) != Lower(slugs[|slugs| - 1]) {
        var j :| 0 <= j < |init| && init[j] == kept[i];
      }
    }
  }

  /** No slug is listed twice, ASCII case aside, when neither input lists one twice. */
  lemma MergedUnique(embedded: seq<Value>, overlay: seq<Value>, known: seq<string>)
    requires Unique(Slugs(embedded)) && Unique(Slugs(overlay))
    ensures Unique(Slugs(Merge(embedded, overlay, known)))
  {
    if overlay != [] {
      MergedOrder(embedded, overlay, known);
      NeverOfficialFrom(Slugs(embedded), overlay, known);
      var first, second := Slugs(overlay), NeverOfficial(Slugs(embedded), overlay, known);
      forall i, j | 0 <= i < |first| && 0 <= j < |second| ensures Lower(first[i]) != Lower(second[j]) {
        SlugsLists(overlay, second[j]);
        assert !Among(first, second[j]);
      }
    }
  }

  // ---------- merging again ----------

  lemma {:induction false} RemainingAppend(a: seq<Value>, b: seq<Value>, overlay: seq<Value>, known: seq<string>)
    ensures Remaining(a + b, overlay, known) == Remaining(a, overlay, known) + Remaining(b, overlay, known)
  {
    if b == [] {
      assert a + b == a;
    } else {
      assert (a + b)[..|a + b| - 1] == a + b[..|b| - 1];
      RemainingAppend(a, b[..|b| - 1], overlay, known);
    }
  }

  lemma {:induction false} RemainingAgain(embedded: seq<Value>, overlay: seq<Value>, known: seq<string>)
    ensures Remaining(Remaining(embedded, overlay, known), overlay, known) == Remaining(embedded, overlay, known)
  {
    if embedded != [] {
      var init, model := embedded[..|embedded| - 1], embedded[|embedded| - 1];
      RemainingAgain(init, overlay, known);
      var rest := Remaining(init, overlay, known);
      if Stays(model, overlay, known) {
        assert (rest + [model])[..|rest|] == rest;
      }
    }
  }

  lemma {:induction false} OverlaidGoes(embedded: seq<Value>, part: seq<Value>, overlay: seq<Value>, known: seq<string>)
    requires forall i :: 0 <= i < |part| && Slug(part[i]).Some? ==> Lists(overlay, Slug(part[i]).value)
    ensures Remaining(Overlaid(embedded, part), overlay, known) == []
  {
    if part != [] {
      var init, official := part[..|part| - 1], part[|part| - 1];
      OverlaidGoes(embedded, init, overlay, known);
      if Slug(official).Some? {
        var before := Overlaid(embedded, init);
        var entry := MergeEntry(Find(embedded, Slug(official).value), official);
        MergeEntryKeeps(Find(embedded, Slug(official).value), official);
        assert (before + [entry])[..|before|] == before;
      }
    }
  }

  /** What is left of the embedded entries is the same after merging again. */
  lemma RemainingStable(embedded: seq<Value>, overlay: seq<Value>, known: seq<string>)
    requires overlay != []
    ensures Remaining(Merge(embedded, overlay, known), overlay, known) == Remaining(embedded, overlay, known)
  {
    RemainingAppend(Overlaid(embedded, overlay), Remaining(embedded, overlay, known), overlay, known);
    OverlaidGoes(embedded, overlay, overlay, known);
    RemainingAgain(embedded, overlay, known);
    assert [] + Remaining(embedded, overlay, known) == Remaining(embedded, overlay, known);
  }

  /** An official entry that will be completed the same way again: it has base instructions of its own,
      or the first official entry of its slug has none, or has the very ones of the embedded entry. */
  predicate CompletesAlike(embedded: seq<Value>, overlay: seq<Value>, official: Value) {
    Slug(official).Some? ==>
      var s := Slug(official).value;
      || Base(official).Some?
      || OptionalBase(Find(overlay, s)).None?
      || OptionalBase(Find(overlay, s)) == OptionalBase(Find(embedded, s))
  }

  lemma BaseDecides(a: Option<Value>, b: Option<Value>, official: Value)
    requires official.Obj?
    ensures MergeEntry(a, official) == MergeEntry(b, official)
            <==> Base(official).Some? || OptionalBase(a) == OptionalBase(b)
  {
    if Base(official).None? {
      if OptionalBase(a).Some? {
        assert Base(MergeEntry(a, official)) == OptionalBase(a);
      }
      if OptionalBase(b).Some? {
        assert Base(MergeEntry(b, official)) == OptionalBase(b);
      }
    }
  }

  lemma CompletesAlikeExact(embedded: seq<Value>, overlay: seq<Value>, known: seq<string>, official: Value)
    requires overlay != [] && official in overlay && Slug(official).Some?
    ensures var s := Slug(official).value;
            MergeEntry(Find(Merge(embedded, overlay, known), s), official) == MergeEntry(Find(embedded, s), official)
            <==> CompletesAlike(embedded, overlay, official)
  {
    var s := Slug(official).value;
    var i :| 0 <= i < |overlay| && overlay[i] == official;
    assert HasSlug(overlay[i], s);
    assert Lists(overlay, s);
    MergedLookup(embedded, overlay, known, s);
    FindLists(overlay, s);
    var first := Find(overlay, s).value;
    MergeEntryKeeps(Find(embedded, s), first);
    BaseDecides(Find(Merge(embedded, overlay, known), s), Find(embedded, s), official);
  }

  lemma {:induction false} OverlaidLength(a: seq<Value>, b: seq<Value>, part: seq<Value>)
    ensures |Overlaid(a, part)| == |Overlaid(b, part)|
  {
    if part != [] {
      OverlaidLength(a, b, part[..|part| - 1]);
    }
  }

  lemma {:induction false} OverlaidEqual(a: seq<Value>, b: seq<Value>, part: seq<Value>)
    ensures Overlaid(a, part) == Overlaid(b, part)
            <==> forall i :: 0 <= i < |part| && Slug(part[i]).Some? ==>
                   MergeEntry(Find(a, Slug(part[i]).value), part[i])
                   == MergeEntry(Find(b, Slug(part[i]).value), part[i])
  {
    if part != [] {
      var init, official := part[..|part| - 1], part[|part| - 1];
      OverlaidEqual(a, b, init);
      OverlaidLength(a, b, init);
      if Slug(official).Some? {
        var x := MergeEntry(Find(a, Slug(official).value), official);
        var y := MergeEntry(Find(b, Slug(official).value), official);
        SnocEqual(Overlaid(a, init), Overlaid(b, init), x, y);
      }
    }
  }

  lemma PrefixEqual(a: seq<Value>, b: seq<Value>, rest: seq<Value>)
    requires |a| == |b|
    ensures a + rest == b + rest <==> a == b
  {
    if a + rest == b + rest {
      assert a == (a + rest)[..|a|] && b == (b + rest)[..|b|];
    }
  }

  /** Merging the merged catalogue with the same overlay changes nothing exactly when every official entry
      is completed alike; one official entry per slug is enough for that. */
  lemma MergeAgainExact(embedded: seq<Value>, overlay: seq<Value>, known: seq<string>)
    ensures var merged := Merge(embedded, overlay, known);
            Merge(merged, overlay, known) == merged
            <==> overlay == [] || forall i :: 0 <= i < |overlay| ==> CompletesAlike(embedded, overlay, overlay[i])
  {
    if overlay != [] {
      var merged := Merge(embedded, overlay, known);
      RemainingStable(embedded, overlay, known);
      OverlaidEqual(merged, embedded, overlay);
      OverlaidLength(merged, embedded, overlay);
      PrefixEqual(Overlaid(merged, overlay), Overlaid(embedded, overlay), Remaining(embedded, overlay, known));
      forall i | 0 <= i < |overlay| && Slug(overlay[i]).Some?
        ensures MergeEntry(Find(merged, Slug(overlay[i]).value), overlay[i])
                == MergeEntry(Find(embedded, Slug(overlay[i]).value), overlay[i])
                <==> CompletesAlike(embedded, overlay, overlay[i])
      {
        CompletesAlikeExact(embedded, overlay, known, overlay[i]);
      }
    }
  }

  /** With one official entry per slug, merging again changes nothing. */
  lemma UniqueOverlayMergesOnce(embedded: seq<Value>, overlay: seq<Value>, known: seq<string>)
    requires forall i, j :: 0 <= i < j < |overlay| && Slug(overlay[i]).Some? ==>
             !HasSlug(overlay[j], Slug(overlay[i]).value)
    ensures var merged := Merge(embedded, overlay, known); Merge(merged, overlay, known) == merged
  {
    forall j | 0 <= j < |overlay| ensures CompletesAlike(embedded, overlay, overlay[j]) {
      if Slug(overlay[j]).Some? {
        var s := Slug(overlay[j]).value;
        assert HasSlug(overlay[j], s);
        FindLists(overlay, s);
        var i :| 0 <= i < |overlay| && overlay[i] == Find(overlay, s).value;
        if i != j {
          assert false;
        }
      }
    }
    MergeAgainExact(embedded, overlay, known);
  }

  /** Two official entries for one slug, the first with base instructions and the second without: merging
      again gives the second one the instructions of the first. */
  lemma DuplicateOverlayMergesTwice()
    ensures var overlay := [Obj(map["slug" := Str("m"), BASE_INSTRUCTIONS := Str("x")]), Obj(map["slug" := Str("m")])];
            Merge(Merge([], overlay, []), overlay, []) != Merge([], overlay, [])
  {
    var first, second := Obj(map["slug" := Str("m"), BASE_INSTRUCTIONS := Str("x")]), Obj(map["slug" := Str("m")]);
    var overlay := [first, second];
    assert overlay[0] == first && HasSlug(first, "m");
    assert Find(overlay, "m") == Some(first);
    assert Base(first) == Some(Str("x")) && Base(second) == None;
    assert overlay[1] == second && !CompletesAlike([], overlay, second);
    MergeAgainExact([], overlay, []);
  }
}
