/** The index-generation switcher of es6/switcher.go: names a fresh generation after the
    alias and the creation time, discovers the alias's old generations in the catalog, and
    builds the single alias-update request that cuts over and applies retention. */
module Switcher {
  import opened Wrappers
  import opened Strings
  import opened Sorting
  import opened TimeFormat
  import opened Retention

  /** Why a backend round trip failed: the transport, an error status (`res.IsError()`,
      reported as the formatted response), or a catalog body that does not decode. */
  datatype Error = Transport(message: string) | Rejected(response: string) | Undecodable(message: string)

  /** The create-index request `NewSwitcher` sends. */
  datatype CreateIndex = CreateIndex(index: string, settings: string)

  /** `alias + "_" + now.UTC().Format("20060102150405")`. */
  function GenerationName(alias: string, t: DateTime): string {
    alias + "_" + Format(t)
  }

  /** A full match of `^<alias>_[0-9]+$`, the alias taken literally. */
  predicate IsGenerationOf(alias: string, name: string) {
    && |name| > |alias| + 1
    && name[..|alias|] == alias
    && name[|alias|] == '_'
    && AllDigits(name[|alias| + 1..])
  }

  /** The pattern matches exactly the alias, `_`, and one or more ASCII digits. */
  lemma GenerationPatternExact(alias: string, name: string)
    ensures IsGenerationOf(alias, name) <==>
      exists digits :: AllDigits(digits) && |digits| > 0 && name == alias + "_" + digits
  {
    if IsGenerationOf(alias, name) {
      var digits := name[|alias| + 1..];
      assert name == alias + "_" + digits;
    }
  }

  /** The characters RE2 syntax gives a meaning outside a character class. */
  predicate IsRegexMeta(c: char) {
    c in "\\.+*?()|[]{}^$"
  }

  /** `^<alias>_[0-9]+$` as the source compiles it, the alias spliced in unescaped, for
      aliases whose only metacharacter is `.`: each `.` matches any character but a newline. */
  predicate PatternAsWritten(alias: string, name: string)
    requires forall i :: 0 <= i < |alias| ==> alias[i] == '.' || !IsRegexMeta(alias[i])
  {
    && |name| > |alias| + 1
    && (forall i :: 0 <= i < |alias| ==> if alias[i] == '.' then name[i] != '\n' else name[i] == alias[i])
    && name[|alias|] == '_'
    && AllDigits(name[|alias| + 1..])
  }

  /** For an alias free of metacharacters the compiled pattern is the literal match. */
  lemma LiteralAliasAgrees(alias: string, name: string)
    requires forall i :: 0 <= i < |alias| ==> !IsRegexMeta(alias[i])
    ensures PatternAsWritten(alias, name) <==> IsGenerationOf(alias, name)
  {
    if PatternAsWritten(alias, name) {
      assert name[..|alias|] == alias;
    }
  }

  /** The alias `my.index` matches an index of the alias `my-index`, and with retention 0
      that foreign generation would be deleted by the cutover. */
  lemma UnescapedAliasMatchesForeignIndex()
    ensures var alias, foreign := "my.index", "my-index_20200101000000";
      && PatternAsWritten(alias, foreign)
      && !IsGenerationOf(alias, foreign)
      && Deleted(Cutover(alias, "my.index_20240101000000", [foreign], 0)) == [foreign]
  {
    var alias, foreign := "my.index", "my-index_20200101000000";
    assert foreign[..|alias|] == "my-index" && foreign[|alias|] == '_';
    var digits := foreign[|alias| + 1..];
    assert digits == "20200101000000";
    assert AllDigits(digits);
    ZeroRetentionDeletesAll(alias, "my.index_20240101000000", [foreign]);
  }

  /** The filter of `oldIndices`: a generation of the alias other than the switcher's own. */
  predicate IsOldGeneration(alias: string, index: string, name: string) {
    IsGenerationOf(alias, name) && name != index
  }

  /** The catalog names that pass the filter, in catalog order, duplicates kept. */
  function Matching(alias: string, index: string, names: seq<string>): seq<string>
    decreases |names|
  {
    if names == [] then []
    else
      var last := names[|names| - 1];
      Matching(alias, index, names[..|names| - 1]) + (if IsOldGeneration(alias, index, last) then [last] else [])
  }

  /** The old generations `Switch` plans for: the filtered names in ascending order. */
  function OldGenerations(alias: string, index: string, names: seq<string>): seq<string> {
    Sort(Matching(alias, index, names))
  }

  /** The filter keeps each matching name as often as the catalog lists it and nothing else. */
  lemma {:induction false} MatchingCounts(alias: string, index: string, names: seq<string>)
    ensures forall x ::
      multiset(Matching(alias, index, names))[x] == (if IsOldGeneration(alias, index, x) then multiset(names)[x] else 0)
  {
    if names != [] {
      var init, last := names[..|names| - 1], names[|names| - 1];
      MatchingCounts(alias, index, init);
      assert names == init + [last];
    }
  }

  /** `oldIndices` returns a sorted permutation of exactly the matching catalog names. */
  lemma OldGenerationsSpec(alias: string, index: string, names: seq<string>)
    ensures var r := OldGenerations(alias, index, names);
      && Sorted(r)
      && (forall x :: multiset(r)[x] == if IsOldGeneration(alias, index, x) then multiset(names)[x] else 0)
      && index !in r
      && (forall i :: 0 <= i < |r| ==> IsGenerationOf(alias, r[i]) && r[i] in names)
  {
    var r := OldGenerations(alias, index, names);
    SortSorted(Matching(alias, index, names));
    MatchingCounts(alias, index, names);
    forall i | 0 <= i < |r| ensures IsGenerationOf(alias, r[i]) && r[i] in names {
      assert r[i] in multiset(r);
    }
    assert index !in multiset(r);
  }

  /** With a four-digit year a generation name is the alias, `_` and 14 digits. */
  lemma GenerationNameShape(alias: string, t: DateTime)
    ensures ValidTime(t) && 0 <= t.year < 10000 ==>
      |GenerationName(alias, t)| == |alias| + 15 && IsGenerationOf(alias, GenerationName(alias, t))
  {
    if ValidTime(t) && 0 <= t.year < 10000 {
      FormatDigits(t);
      assert GenerationName(alias, t)[|alias| + 1..] == Format(t);
    }
  }

  /** With a four-digit year the switcher's own name is `alias + "_" + 14 digits`, so it
      matches the old-generation pattern itself: only the explicit inequality keeps it
      out of the plan. */
  lemma OwnIndexNeedsExclusion(alias: string, t: DateTime, names: seq<string>)
    requires ValidTime(t) && 0 <= t.year < 10000
    ensures var own := GenerationName(alias, t);
      && |own| == |alias| + 15
      && IsGenerationOf(alias, own)
      && own !in OldGenerations(alias, own, names)
  {
    GenerationNameShape(alias, t);
    OldGenerationsSpec(alias, GenerationName(alias, t), names);
  }

  /** Generation names of one alias sort as their creation times, and times a second or more
      apart give different names. */
  lemma GenerationNameOrder(alias: string, t: DateTime, u: DateTime)
    requires ValidTime(t) && ValidTime(u)
    requires 0 <= t.year < 10000 && 0 <= u.year < 10000
    ensures Before(t, u) <==> Less(GenerationName(alias, t), GenerationName(alias, u))
    ensures t != u ==> GenerationName(alias, t) != GenerationName(alias, u)
  {
    LessIrreflexive(alias + "_");
    LessConcat(alias + "_", Format(t), alias + "_", Format(u));
    LessConcat(alias + "_", Format(u), alias + "_", Format(t));
    FormatOrder(t, u);
    FormatOrder(u, t);
    if t != u && GenerationName(alias, t) == GenerationName(alias, u) {
      LessIrreflexive(GenerationName(alias, t));
    }
  }

  /** Every action after the leading `add` names an old generation of this alias that the
      catalog listed, never the new index: the cutover cannot unbind or delete the new
      generation, nor touch another alias's indices. */
  lemma CutoverTouchesOnlyOldGenerations(alias: string, index: string, names: seq<string>, retention: int)
    ensures var r := Cutover(alias, index, OldGenerations(alias, index, names), retention);
      forall i :: 1 <= i < |r| ==> r[i].index != index && IsGenerationOf(alias, r[i].index) && r[i].index in names
  {
    OldGenerationsSpec(alias, index, names);
  }

  /** When every old generation is a name this switcher scheme derives from a valid time with
      a four-digit year, ascending string order is oldest first: no name is followed by an
      older one. */
  lemma SortedGenerationsOldestFirst(alias: string, olds: seq<string>, times: seq<DateTime>)
    requires Sorted(olds) && |times| == |olds|
    requires forall i :: 0 <= i < |olds| ==>
      ValidTime(times[i]) && 0 <= times[i].year < 10000 && olds[i] == GenerationName(alias, times[i])
    ensures forall i, j :: 0 <= i < j < |olds| ==> !Before(times[j], times[i])
  {
    forall i, j | 0 <= i < j < |olds| ensures !Before(times[j], times[i]) {
      var x, y := olds[i], olds[j];
      GenerationNameOrder(alias, times[j], times[i]);
      LessIrreflexive(x);
      if Less(y, x) {
        LessAsymmetric(y, x);
      }
    }
  }

  /** The pattern also accepts digit strings of other widths, and those sort by string order,
      not by time: `a_9` sorts after `a_20200101000000`, so with retention 1 the 14-digit
      generation is deleted and `a_9` is kept. */
  lemma OtherWidthNameSortsLast()
    ensures OldGenerations("a", "a_20240101000000", ["a_9", "a_20200101000000"]) == ["a_20200101000000", "a_9"]
    ensures Deleted(Cutover("a", "a_20240101000000", ["a_20200101000000", "a_9"], 1)) == ["a_20200101000000"]
  {
    var names, r := ["a_9", "a_20200101000000"], ["a_20200101000000", "a_9"];
    ExampleMatching();
    ExampleOrder();
    assert multiset(r) == multiset(names);
    SortIsSortedPermutation(names, r);
    CutoverEffect("a", "a_20240101000000", r, 1);
    assert r[..1] == ["a_20200101000000"];
  }

  lemma ExampleMatching()
    ensures Matching("a", "a_20240101000000", ["a_9", "a_20200101000000"]) == ["a_9", "a_20200101000000"]
  {
    var names, gen := ["a_9", "a_20200101000000"], "a_20200101000000";
    assert "a_9"[2..] == "9";
    assert IsOldGeneration("a", "a_20240101000000", "a_9");
    assert gen[2..] == "20200101000000";
    assert AllDigits(gen[2..]);
    assert gen != "a_20240101000000" by {
      assert gen[5] != "a_20240101000000"[5];
    }
    assert IsOldGeneration("a", "a_20240101000000", gen);
    assert names[..1] == ["a_9"];
    assert names[..1][..0] == [];
  }

  lemma ExampleOrder()
    ensures Sorted(["a_20200101000000", "a_9"])
  {
    var gen := "a_20200101000000";
    assert gen[1..][1..] == "20200101000000" && "a_9"[1..][1..] == "9";
    assert Less(gen, "a_9");
  }

  class Switcher {
    const alias: string
    const index: string
    /** The creation time the index name was derived from. */
    ghost const createdAt: DateTime

    ghost predicate Valid() {
      ValidTime(createdAt) && index == GenerationName(alias, createdAt)
    }

    constructor (alias: string, index: string, ghost createdAt: DateTime)
      requires ValidTime(createdAt) && index == GenerationName(alias, createdAt)
      ensures Valid() && this.alias == alias && this.index == index && this.createdAt == createdAt
    {
      this.alias := alias;
      this.index := index;
      this.createdAt := createdAt;
    }

    /** The physical index that documents are written to before the switch. */
    function Name(): (r: string)
      requires Valid()
      ensures r == GenerationName(alias, createdAt)
      ensures 0 <= createdAt.year < 10000 ==> |r| == |alias| + 15 && IsGenerationOf(alias, r)
    {
      GenerationNameShape(alias, createdAt);
      index
    }

    /** Lists the catalog, keeps the alias's generations other than its own, sorts them. */
    method OldIndices(catalog: Result<seq<string>, Error>) returns (r: Result<seq<string>, Error>)
      ensures catalog.Failure? ==> r == Failure(catalog.error)
      ensures catalog.Success? ==> r == Success(OldGenerations(alias, index, catalog.value))
    {
      if catalog.Failure? {
        return Failure(catalog.error);
      }
      var names := catalog.value;
      var kept: seq<string> := [];
      var i := 0;
      while i < |names|
        invariant 0 <= i <= |names|
        invariant kept == Matching(alias, index, names[..i])
      {
        assert names[..i + 1][..i] == names[..i];
        if IsGenerationOf(alias, names[i]) && names[i] != index {
          kept := kept + [names[i]];
        }
        i := i + 1;
      }
      assert names[..|names|] == names;
      var a := new string[|kept|](k requires 0 <= k < |kept| => kept[k]);
      assert a[..] == kept;
      SortInPlace(a);
      return Success(a[..]);
    }

    /** Builds the alias-update request (`add` for its own index, then one `remove` or
        `remove_index` per old generation, oldest first) and sends it, unless the catalog
        could not be read. `response` is the backend's reply to the update. */
    method Switch(retention: int, catalog: Result<seq<string>, Error>, response: Outcome<Error>)
      returns (request: Option<seq<Action>>, r: Outcome<Error>)
      ensures catalog.Failure? ==> request == None && r == Fail(catalog.error)
      ensures catalog.Success? ==>
        && request == Some(Cutover(alias, index, OldGenerations(alias, index, catalog.value), retention))
        && r == response
    {
      var actions := [Add(alias, index)];
      var olds := OldIndices(catalog);
      if olds.Failure? {
        return None, Fail(olds.error);
      }
      var gens := olds.value;
      ghost var plan := Plan(alias, gens, retention);
      var i := 0;
      while i < |gens|
        invariant 0 <= i <= |gens|
        invariant actions == [Add(alias, index)] + plan[..i]
      {
        assert plan[..i + 1] == plan[..i] + [plan[i]];
        if retention < 0 || i >= |gens| - retention {
          actions := actions + [Remove(alias, gens[i])];
        } else {
          actions := actions + [RemoveIndex(gens[i])];
        }
        i := i + 1;
      }
      assert plan[..|gens|] == plan;
      request := Some(actions);
      r := response;
    }
  }

  /** Derives the generation name from `now`, asks the backend to create that index with
      `settings`, and yields a switcher only if the backend confirmed the creation. */
  method NewSwitcher(alias: string, settings: string, now: DateTime, response: Outcome<Error>)
    returns (request: CreateIndex, r: Result<Switcher, Error>)
    requires ValidTime(now)
    ensures request == CreateIndex(GenerationName(alias, now), settings)
    ensures response.Fail? ==> r == Failure(response.error)
    ensures response.Pass? ==>
      && r.Success? && fresh(r.value) && r.value.Valid()
      && r.value.alias == alias && r.value.index == request.index && r.value.createdAt == now
  {
    var index := GenerationName(alias, now);
    request := CreateIndex(index, settings);
    if response.Fail? {
      return request, Failure(response.error);
    }
    var s := new Switcher(alias, index, now);
    r := Success(s);
  }
}
