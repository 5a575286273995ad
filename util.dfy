/** The style cascade: key-wise merging of a record over its style parent,
    the worklist that resolves every styled entity, and the referential
    integrity check (src/hiearch/util.py). */
module Util {
  import opened Values

  // ---------------------------------------------------------------------
  // merge_styles

  /** The nested attribute maps that are merged key by key rather than
      overwritten: `graphviz` whenever the parent has one, and
      `substitutions` only when the parent has both. */
  predicate MergedKey(k: string, secondary: Record)
  {
    "graphviz" in secondary &&
    (k == "graphviz" || (k == "substitutions" && "substitutions" in secondary))
  }

  /** Python's `|` on the two attribute maps is defined only for dictionaries. */
  predicate Mergeable(secondary: Record, primary: Record)
  {
    forall k :: MergedKey(k, secondary) && k in primary ==>
      secondary[k].Dict? && primary[k].Dict?
  }

  /** `secondary | primary` on two dictionary values. */
  function UnionDicts(secondary: Value, primary: Value): Result<Value>
  {
    if secondary.Dict? && primary.Dict? then Ok(Dict(secondary.entries + primary.entries))
    else Err(Malformed("unsupported operand types for |"))
  }

  /** The assignment into `primary['substitutions']`, made only when the
      parent has a `graphviz` key. */
  function AdoptSubstitutions(secondary: Record, primary: Record): (r: Result<Record>)
    requires "graphviz" in secondary
    ensures r.Err? ==> r.error.Malformed?
  {
    if "substitutions" !in secondary then Ok(primary)
    else if "substitutions" in primary then
      var m :- UnionDicts(secondary["substitutions"], primary["substitutions"]);
      Ok(primary["substitutions" := m])
    else Ok(primary["substitutions" := secondary["substitutions"]])
  }

  /** `substitutions` is adopted, or merged key-wise when both sides have it;
      nothing else changes. */
  lemma AdoptSubstitutionsSpec(secondary: Record, primary: Record)
    requires "graphviz" in secondary
    ensures var r := AdoptSubstitutions(secondary, primary);
      (r.Ok? <==> ("substitutions" in secondary && "substitutions" in primary ==>
                   secondary["substitutions"].Dict? && primary["substitutions"].Dict?)) &&
      (r.Ok? ==> r.value.Keys == primary.Keys + (if "substitutions" in secondary then {"substitutions"} else {})) &&
      (r.Ok? ==> forall k :: k in primary && !MergedKey(k, secondary) ==> r.value[k] == primary[k]) &&
      (r.Ok? && "substitutions" in secondary ==>
        r.value["substitutions"] ==
          if "substitutions" in primary then Dict(secondary["substitutions"].entries + primary["substitutions"].entries)
          else secondary["substitutions"])
  {
  }

  /** The assignments into `primary['substitutions']` and `primary['graphviz']`. */
  function AdoptAttrMaps(secondary: Record, primary: Record): (r: Result<Record>)
    ensures r.Err? ==> r.error.Malformed?
  {
    if "graphviz" !in secondary then Ok(primary)
    else
      var withSubs :- AdoptSubstitutions(secondary, primary);
      if "graphviz" in withSubs then
        var g :- UnionDicts(secondary["graphviz"], withSubs["graphviz"]);
        Ok(withSubs["graphviz" := g])
      else Ok(withSubs["graphviz" := secondary["graphviz"]])
  }

  /** Both attribute maps adopted or merged; defined exactly when every
      merged pair is a pair of dictionaries. */
  lemma AdoptAttrMapsSpec(secondary: Record, primary: Record)
    ensures var r := AdoptAttrMaps(secondary, primary);
      (r.Ok? <==> Mergeable(secondary, primary)) &&
      (r.Ok? ==> r.value.Keys == primary.Keys + (set k | k in secondary && MergedKey(k, secondary))) &&
      (r.Ok? ==> forall k :: k in primary && !MergedKey(k, secondary) ==> r.value[k] == primary[k]) &&
      (r.Ok? ==> forall k :: MergedKey(k, secondary) ==>
        r.value[k] == if k in primary then Dict(secondary[k].entries + primary[k].entries) else secondary[k])
  {
    if "graphviz" in secondary {
      AdoptSubstitutionsSpec(secondary, primary);
    }
  }

  /** Merge a style parent (`secondary`) into an entity (`primary`); see
      MergeStylesSpec for what the result holds. */
  function MergeStyles(secondary: Record, primary: Record, withTags: bool): (r: Result<Record>)
    ensures r.Err? ==> r.error.Malformed?
  {
    var p :- AdoptAttrMaps(secondary, primary);
    var result := secondary + p;
    if !withTags && "tags" !in primary then Ok(result["tags" := StrList(["default"])])
    else Ok(result)
  }

  /** The entity's keys win, the nested attribute maps are merged key by key
      with the entity's entries winning, and without tag inheritance an entity
      that sets no tags gets `['default']`. */
  lemma MergeStylesSpec(secondary: Record, primary: Record, withTags: bool)
    ensures var r := MergeStyles(secondary, primary, withTags);
      (r.Ok? <==> Mergeable(secondary, primary)) &&
      (r.Ok? ==>
        r.value.Keys == secondary.Keys + primary.Keys + (if withTags then {} else {"tags"})) &&
      (r.Ok? ==> forall k :: k in primary && !MergedKey(k, secondary) ==>
        r.value[k] == primary[k]) &&
      (r.Ok? ==> forall k :: k in secondary && k !in primary && (withTags || k != "tags") ==>
        r.value[k] == secondary[k]) &&
      (r.Ok? ==> forall k :: MergedKey(k, secondary) && k in primary ==>
        r.value[k].Dict? &&
        r.value[k].entries.Keys == secondary[k].entries.Keys + primary[k].entries.Keys &&
        (forall j :: j in r.value[k].entries ==>
          r.value[k].entries[j] ==
            if j in primary[k].entries then primary[k].entries[j] else secondary[k].entries[j])) &&
      (r.Ok? && !withTags && "tags" !in primary ==> r.value["tags"] == StrList(["default"]))
  {
    AdoptAttrMapsSpec(secondary, primary);
  }

  /** Applying the same parent twice changes nothing: re-resolving an already
      resolved record is idempotent. */
  lemma MergeStylesIdempotent(secondary: Record, primary: Record, withTags: bool)
    requires forall k :: MergedKey(k, secondary) ==> secondary[k].Dict?
    requires MergeStyles(secondary, primary, withTags).Ok?
    ensures MergeStyles(secondary, MergeStyles(secondary, primary, withTags).value, withTags)
            == MergeStyles(secondary, primary, withTags)
  {
    var m := MergeStyles(secondary, primary, withTags).value;
    MergedIsMergeable(secondary, primary, withTags, m);
    MergeStylesSpec(secondary, m, withTags);
    var m2 := MergeStyles(secondary, m, withTags).value;
    RemergeSame(secondary, primary, withTags, m, m2);
  }

  lemma RemergeSame(secondary: Record, primary: Record, withTags: bool, m: Record, m2: Record)
    requires MergeStyles(secondary, primary, withTags) == Ok(m)
    requires MergeStyles(secondary, m, withTags) == Ok(m2)
    ensures m2 == m
  {
    MergeStylesSpec(secondary, primary, withTags);
    MergeStylesSpec(secondary, m, withTags);
    assert m2.Keys == m.Keys;
    forall k | k in m2 ensures m2[k] == m[k] {
      if MergedKey(k, secondary) {
        DictEqual(m2[k], m[k]);
      }
    }
  }

  lemma MergedIsMergeable(secondary: Record, primary: Record, withTags: bool, m: Record)
    requires forall k :: MergedKey(k, secondary) ==> secondary[k].Dict?
    requires MergeStyles(secondary, primary, withTags) == Ok(m)
    ensures Mergeable(secondary, m)
  {
    MergeStylesSpec(secondary, primary, withTags);
    forall k | MergedKey(k, secondary) && k in m ensures m[k].Dict? {
      if k !in primary {
        assert m[k] == secondary[k];
      }
    }
  }

  lemma DictEqual(a: Value, b: Value)
    requires a.Dict? && b.Dict? && a.entries.Keys == b.entries.Keys
    requires forall j :: j in a.entries ==> a.entries[j] == b.entries[j]
    ensures a == b
  {
    assert a.entries == b.entries;
  }

  // ---------------------------------------------------------------------
  // apply_styles

  /** A key merge_styles copies from one of its two records unchanged. */
  predicate Inherited(key: string)
  {
    key != "graphviz" && key != "substitutions" && key != "tags"
  }

  /** No entry of `ents` holds `value` under `key`. */
  ghost predicate Avoids(ents: map<string, Record>, key: string, value: Value)
  {
    forall k :: k in ents && key in ents[k] ==> ents[k][key] != value
  }

  /** A merge never invents the value of an inherited key. */
  lemma MergeAvoids(secondary: Record, primary: Record, withTags: bool, key: string, value: Value)
    requires MergeStyles(secondary, primary, withTags).Ok? && Inherited(key)
    requires key in secondary ==> secondary[key] != value
    requires key in primary ==> primary[key] != value
    ensures var m := MergeStyles(secondary, primary, withTags).value;
      key in m ==> m[key] != value
  {
    MergeStylesSpec(secondary, primary, withTags);
  }

  /** The key of the style parent: `style` when present (inheriting tags),
      `style_notag` otherwise; a missing or unknown reference is Python's KeyError. */
  function FatherKey(t: Record, entities: map<string, Record>): (r: Result<string>)
    ensures r.Ok? ==> r.value in entities
    ensures r.Err? ==> r.error.Malformed?
  {
    var ref := if "style" in t then t["style"]
               else if "style_notag" in t then t["style_notag"] else Null;
    if ref.Str? && ref.s in entities then Ok(ref.s)
    else Err(Malformed("style reference"))
  }

  predicate WithTags(t: Record)
  {
    "style" in t
  }

  /** An entity with neither style reference set is the root of a style chain. */
  predicate IsStyleRoot(f: Record)
  {
    ("style" !in f || f["style"].Null?) && ("style_notag" !in f || f["style_notag"].Null?)
  }

  lemma StyledIsNotRoot(t: Record, entities: map<string, Record>)
    requires FatherKey(t, entities).Ok?
    ensures !IsStyleRoot(t)
  {
  }

  function Ids(s: seq<Record>): (r: seq<string>)
    requires forall i :: 0 <= i < |s| ==> HasStrId(s[i])
    ensures |r| == |s| && forall i :: 0 <= i < |s| ==> r[i] == IdOf(s[i])
  {
    if |s| == 0 then [] else Ids(s[..|s| - 1]) + [IdOf(s[|s| - 1])]
  }

  ghost function IdSet(s: seq<Record>): set<string>
  {
    set t | t in s && HasStrId(t) :: IdOf(t)
  }

  /** Each styled record is the entry stored under its own id, and no record
      is listed twice (the parsers reject duplicate ids).  Stated on the
      multiset, so it survives every reordering of the list. */
  ghost predicate StyledBag(m: multiset<Record>, entities: map<string, Record>)
  {
    (forall t :: t in m ==> HasStrId(t) && IdOf(t) in entities && entities[IdOf(t)] == t) &&
    (forall t :: m[t] <= 1)
  }

  ghost predicate StyledEntries(styled: seq<Record>, entities: map<string, Record>)
  {
    StyledBag(multiset(styled), entities)
  }

  lemma StyledAt(s: seq<Record>, entities: map<string, Record>, i: int)
    requires StyledEntries(s, entities) && 0 <= i < |s|
    ensures HasStrId(s[i]) && IdOf(s[i]) in entities && entities[IdOf(s[i])] == s[i]
  {
    assert s[i] in multiset(s);
  }

  /** Two positions of a styled list holding the same id are the same position. */
  lemma DistinctPositions(s: seq<Record>, entities: map<string, Record>, i: int, j: int)
    requires StyledEntries(s, entities) && 0 <= i < |s| && 0 <= j < |s|
    ensures HasStrId(s[i]) && HasStrId(s[j])
    ensures IdOf(s[i]) == IdOf(s[j]) ==> i == j
  {
    StyledAt(s, entities, i);
    StyledAt(s, entities, j);
    if i < j && s[i] == s[j] {
      TwiceInMultiset(s, i, j);
    } else if j < i && s[i] == s[j] {
      TwiceInMultiset(s, j, i);
    }
  }

  lemma TwiceInMultiset(s: seq<Record>, i: int, j: int)
    requires 0 <= i < j < |s| && s[i] == s[j]
    ensures multiset(s)[s[i]] >= 2
  {
    assert s == s[..j] + s[j..];
    assert s[i] in s[..j];
    assert s[j] in s[j..];
    assert multiset(s) == multiset(s[..j]) + multiset(s[j..]);
  }

  /** `t` is resolved in `ents`: its entry is `t` merged over its parent's entry. */
  ghost predicate ResolvedIn(t: Record, ents: map<string, Record>)
  {
    HasStrId(t) && FatherKey(t, ents).Ok? && IdOf(t) in ents &&
    MergeStyles(ents[FatherKey(t, ents).value], t, WithTags(t)) == Ok(ents[IdOf(t)])
  }

  /** The outcome apply_styles promises: every styled entity is resolved over
      its parent's final entry and every other entry is unchanged. */
  ghost predicate StylesApplied(styled: seq<Record>, orig: map<string, Record>, ents: map<string, Record>)
  {
    ents.Keys == orig.Keys && Keyed(ents) &&
    (forall k :: k in orig && k !in IdSet(styled) ==> ents[k] == orig[k]) &&
    (forall i :: 0 <= i < |styled| ==> ResolvedIn(styled[i], ents))
  }

  /** An unresolved entity whose parent is neither a root nor resolved: the
      state in which a sweep resolves nothing. */
  ghost predicate Stuck(t: Record, orig: map<string, Record>, resolved: set<string>)
  {
    FatherKey(t, orig).Ok? &&
    !IsStyleRoot(orig[FatherKey(t, orig).value]) &&
    FatherKey(t, orig).value !in resolved
  }

  /** Python's tuple swap `s[i], s[j] = s[j], s[i]`. */
  function Swap(s: seq<Record>, i: int, j: int): (r: seq<Record>)
    requires 0 <= i < |s| && 0 <= j < |s|
    ensures |r| == |s| && r[i] == s[j] && r[j] == s[i]
    ensures forall k :: 0 <= k < |s| && k != i && k != j ==> r[k] == s[k]
    ensures multiset(r) == multiset(s)
  {
    s[i := s[j]][j := s[i]]
  }

  lemma IdSetSplit(s: seq<Record>, k: int)
    requires 0 <= k < |s| && HasStrId(s[k])
    ensures IdSet(s[k..]) == {IdOf(s[k])} + IdSet(s[k + 1..])
  {
    assert s[k..] == [s[k]] + s[k + 1..];
  }

  /** The sweep's state: `pending[size..]` is exactly the resolved part, whose
      ids `applied` holds; every other entry is unchanged ... */
  ghost predicate SweepFrame(styled: seq<Record>, entities: map<string, Record>,
                             pending: seq<Record>, size: int, ents: map<string, Record>, applied: set<string>)
  {
    0 <= size <= |pending| &&
    multiset(pending) == multiset(styled) &&
    applied == IdSet(pending[size..]) &&
    ents.Keys == entities.Keys && Keyed(ents) &&
    (forall k :: k in entities && k !in applied ==> ents[k] == entities[k])
  }

  /** ... and each resolved entity is resolved in `ents` over a parent that
      was a root or already resolved. */
  ghost predicate ResolvedOver(t: Record, ents: map<string, Record>, applied: set<string>)
  {
    ResolvedIn(t, ents) &&
    (FatherKey(t, ents).value in applied || IsStyleRoot(ents[FatherKey(t, ents).value]))
  }

  ghost predicate SweepResolved(pending: seq<Record>, size: int, ents: map<string, Record>, applied: set<string>)
    requires 0 <= size <= |pending|
  {
    forall i :: size <= i < |pending| ==> ResolvedOver(pending[i], ents, applied)
  }

  ghost predicate SweepInvariant(styled: seq<Record>, entities: map<string, Record>,
                                 pending: seq<Record>, size: int, ents: map<string, Record>, applied: set<string>)
  {
    SweepFrame(styled, entities, pending, size, ents, applied) &&
    SweepResolved(pending, size, ents, applied)
  }

  lemma MergeKeepsId(secondary: Record, primary: Record, withTags: bool, m: Record)
    requires HasStrId(primary) && MergeStyles(secondary, primary, withTags) == Ok(m)
    ensures HasStrId(m) && IdOf(m) == IdOf(primary)
  {
    MergeStylesSpec(secondary, primary, withTags);
  }

  /** The entity at an unresolved position is not yet marked resolved. */
  lemma KeyNotApplied(entities: map<string, Record>, pending: seq<Record>, size: int, applied: set<string>, index: int)
    requires 0 <= index < size <= |pending| && StyledEntries(pending, entities)
    requires applied == IdSet(pending[size..])
    ensures HasStrId(pending[index]) && IdOf(pending[index]) !in applied
  {
    StyledAt(pending, entities, index);
    forall u | u in pending[size..] && HasStrId(u) ensures IdOf(u) != IdOf(pending[index]) {
      var j :| 0 <= j < |pending| - size && pending[size..][j] == u;
      assert pending[size + j] == u;
      DistinctPositions(pending, entities, size + j, index);
    }
  }

  lemma AppliedStep(pending: seq<Record>, size: int, applied: set<string>, index: int)
    requires 0 <= index < size <= |pending| && HasStrId(pending[index])
    requires applied == IdSet(pending[size..])
    ensures applied + {IdOf(pending[index])} == IdSet(Swap(pending, index, size - 1)[size - 1..])
  {
    var pending' := Swap(pending, index, size - 1);
    assert pending'[size..] == pending[size..];
    IdSetSplit(pending', size - 1);
  }

  lemma KeyedUpdate(ents: map<string, Record>, key: string, merged: Record)
    requires Keyed(ents) && HasStrId(merged) && IdOf(merged) == key
    ensures Keyed(ents[key := merged])
  {
  }

  lemma UnchangedUpdate(entities: map<string, Record>, ents: map<string, Record>, applied: set<string>,
                        key: string, merged: Record)
    requires ents.Keys == entities.Keys
    requires forall k :: k in entities && k !in applied ==> ents[k] == entities[k]
    ensures forall k :: k in entities && k !in applied + {key} ==> ents[key := merged][k] == entities[k]
  {
  }

  /** Resolving `pending[index]` and swapping it to `size - 1` keeps the frame. */
  lemma ResolveStepFrame(styled: seq<Record>, entities: map<string, Record>,
                         pending: seq<Record>, size: int, ents: map<string, Record>, applied: set<string>,
                         index: int, merged: Record,
                         pending': seq<Record>, size': int, ents': map<string, Record>, applied': set<string>)
    requires SweepFrame(styled, entities, pending, size, ents, applied)
    requires 0 <= index < size && HasStrId(pending[index]) && IdOf(pending[index]) in ents
    requires HasStrId(merged) && IdOf(merged) == IdOf(pending[index])
    requires pending' == Swap(pending, index, size - 1) && size' == size - 1
    requires ents' == ents[IdOf(pending[index]) := merged] && applied' == applied + {IdOf(pending[index])}
    ensures SweepFrame(styled, entities, pending', size', ents', applied')
  {
    AppliedStep(pending, size, applied, index);
    KeyedUpdate(ents, IdOf(pending[index]), merged);
    UnchangedUpdate(entities, ents, applied, IdOf(pending[index]), merged);
  }

  /** Writing the entry of a not yet resolved key leaves an earlier resolution intact. */
  lemma UpdateKeepsResolved(u: Record, ents: map<string, Record>, applied: set<string>, key: string, merged: Record)
    requires ResolvedOver(u, ents, applied) && key in ents && IdOf(u) in applied && key !in applied
    requires !IsStyleRoot(ents[key])
    ensures ResolvedOver(u, ents[key := merged], applied + {key})
  {
    var ents' := ents[key := merged];
    FatherKeySameKeys(u, ents, ents');
    var f := FatherKey(u, ents).value;
    assert f != key;
    assert ents'[f] == ents[f];
    assert ents'[IdOf(u)] == ents[IdOf(u)];
  }

  /** The newly resolved entity is resolved over its parent's current entry. */
  lemma NewlyResolved(t: Record, ents: map<string, Record>, applied: set<string>, merged: Record)
    requires HasStrId(t) && IdOf(t) in ents && ents[IdOf(t)] == t && IdOf(t) !in applied
    requires FatherKey(t, ents).Ok?
    requires var f := ents[FatherKey(t, ents).value];
      IsStyleRoot(f) || (HasStrId(f) && IdOf(f) in applied)
    requires Keyed(ents)
    requires MergeStyles(ents[FatherKey(t, ents).value], t, WithTags(t)) == Ok(merged)
    ensures ResolvedOver(t, ents[IdOf(t) := merged], applied + {IdOf(t)})
  {
    StyledIsNotRoot(t, ents);
    var ents' := ents[IdOf(t) := merged];
    FatherKeySameKeys(t, ents, ents');
    var fk := FatherKey(t, ents).value;
    assert fk != IdOf(t);
    assert ents'[fk] == ents[fk];
  }

  /** ... and keeps every resolution, old and new. */
  lemma ResolveStepResolved(styled: seq<Record>, entities: map<string, Record>,
                            pending: seq<Record>, size: int, ents: map<string, Record>, applied: set<string>,
                            index: int, merged: Record)
    requires SweepFrame(styled, entities, pending, size, ents, applied)
    requires SweepResolved(pending, size, ents, applied)
    requires StyledEntries(styled, entities)
    requires 0 <= index < size
    requires FatherKey(pending[index], ents).Ok?
    requires var f := ents[FatherKey(pending[index], ents).value];
      IsStyleRoot(f) || (HasStrId(f) && IdOf(f) in applied)
    requires MergeStyles(ents[FatherKey(pending[index], ents).value], pending[index], WithTags(pending[index])) == Ok(merged)
    ensures HasStrId(pending[index])
    ensures SweepResolved(Swap(pending, index, size - 1), size - 1,
                          ents[IdOf(pending[index]) := merged], applied + {IdOf(pending[index])})
  {
    var t := pending[index];
    KeyNotApplied(entities, pending, size, applied, index);
    var key := IdOf(t);
    assert ents[key] == t;
    var pending' := Swap(pending, index, size - 1);
    NewlyResolved(t, ents, applied, merged);
    forall i | size <= i < |pending'|
      ensures ResolvedOver(pending'[i], ents[key := merged], applied + {key})
    {
      var u := pending[i];
      assert pending'[i] == u;
      assert IdOf(u) in applied by {
        assert u in pending[size..];
      }
      StyledIsNotRoot(t, ents);
      UpdateKeepsResolved(u, ents, applied, key, merged);
    }
  }

  /** Resolving `pending[index]` over a root or resolved parent and swapping
      it to `size - 1` keeps the sweep invariant. */
  lemma ResolveStep(styled: seq<Record>, entities: map<string, Record>,
                    pending: seq<Record>, size: int, ents: map<string, Record>, applied: set<string>,
                    index: int, merged: Record,
                    pending': seq<Record>, size': int, ents': map<string, Record>, applied': set<string>)
    requires SweepInvariant(styled, entities, pending, size, ents, applied)
    requires StyledEntries(styled, entities)
    requires 0 <= index < size
    requires FatherKey(pending[index], ents).Ok?
    requires var f := ents[FatherKey(pending[index], ents).value];
      IsStyleRoot(f) || (HasStrId(f) && IdOf(f) in applied)
    requires MergeStyles(ents[FatherKey(pending[index], ents).value], pending[index], WithTags(pending[index])) == Ok(merged)
    requires HasStrId(pending[index])
    requires pending' == Swap(pending, index, size - 1) && size' == size - 1
    requires ents' == ents[IdOf(pending[index]) := merged] && applied' == applied + {IdOf(pending[index])}
    ensures SweepInvariant(styled, entities, pending', size', ents', applied')
  {
    var t := pending[index];
    ResolveStepResolved(styled, entities, pending, size, ents, applied, index, merged);
    MergeKeepsId(ents[FatherKey(t, ents).value], t, WithTags(t), merged);
    ResolveStepFrame(styled, entities, pending, size, ents, applied, index, merged, pending', size', ents', applied');
  }

  lemma FatherKeySameKeys(t: Record, e1: map<string, Record>, e2: map<string, Record>)
    requires e1.Keys == e2.Keys
    ensures FatherKey(t, e1) == FatherKey(t, e2)
  {
  }

  /** An entity skipped by a sweep is stuck with respect to the original entries. */
  lemma SkipIsStuck(styled: seq<Record>, entities: map<string, Record>,
                    pending: seq<Record>, size: int, ents: map<string, Record>, applied: set<string>, index: int)
    requires SweepFrame(styled, entities, pending, size, ents, applied)
    requires 0 <= index < size
    requires FatherKey(pending[index], ents).Ok?
    requires var f := ents[FatherKey(pending[index], ents).value];
      !IsStyleRoot(f) && HasStrId(f) && IdOf(f) !in applied
    ensures Stuck(pending[index], entities, applied)
  {
    FatherKeySameKeys(pending[index], ents, entities);
  }

  lemma StuckPrefixExtend(pending: seq<Record>, entities: map<string, Record>, applied: set<string>, index: int)
    requires 0 <= index < |pending|
    requires forall j :: 0 <= j < index ==> Stuck(pending[j], entities, applied)
    requires Stuck(pending[index], entities, applied)
    ensures forall j :: 0 <= j < index + 1 ==> Stuck(pending[j], entities, applied)
  {
  }

  /** Resolve `pending[index]`, whose parent is a root or already resolved:
      store it merged over its parent, mark it resolved and swap it to the end
      of the unresolved prefix. */
  method ResolveAt(styled: seq<Record>, entities: map<string, Record>,
                   pending0: seq<Record>, size0: int, ents0: map<string, Record>, applied0: set<string>, index: int)
    returns (pending: seq<Record>, size: int, ents: map<string, Record>, applied: set<string>, failure: Option<Error>)
    requires SweepInvariant(styled, entities, pending0, size0, ents0, applied0)
    requires StyledEntries(styled, entities)
    requires 0 <= index < size0
    requires FatherKey(pending0[index], ents0).Ok?
    requires var f := ents0[FatherKey(pending0[index], ents0).value];
      IsStyleRoot(f) || (HasStrId(f) && IdOf(f) in applied0)
    ensures failure.Some? ==> failure.value.Malformed? && pending == pending0
    ensures failure.None? ==> SweepInvariant(styled, entities, pending, size, ents, applied) && size == size0 - 1
    ensures failure.None? ==> forall key, value {:trigger Avoids(ents, key, value)} ::
      Inherited(key) && Avoids(entities, key, value) && Avoids(ents0, key, value) ==> Avoids(ents, key, value)
  {
    pending, size, ents, applied := pending0, size0, ents0, applied0;
    var t := pending[index];
    var father := ents[FatherKey(t, ents).value];
    var merged := MergeStyles(father, t, WithTags(t));
    if merged.Err? {
      return pending, size, ents, applied, Some(merged.error);
    }
    StyledAt(pending, entities, index);
    var key := IdOf(t);
    forall k, value | Inherited(k) && Avoids(entities, k, value) && Avoids(ents0, k, value)
      ensures Avoids(ents[key := merged.value], k, value)
    {
      MergeAvoids(father, t, WithTags(t), k, value);
    }
    ents := ents[key := merged.value];
    applied := applied + {key};
    pending := Swap(pending, index, size - 1);
    size := size - 1;
    ResolveStep(styled, entities, pending0, size0, ents0, applied0, index, merged.value, pending, size, ents, applied);
    failure := None;
  }

  /** One pass of apply_styles' inner loop over the unresolved prefix
      `pending[..size]`: every entity whose parent is a root or already
      resolved is merged over it and swapped to position `size - 1`.  A pass
      that resolves nothing leaves every unresolved entity stuck. */
  method Sweep(styled: seq<Record>, entities: map<string, Record>,
               pending0: seq<Record>, size0: int, ents0: map<string, Record>, applied0: set<string>)
    returns (pending: seq<Record>, size: int, ents: map<string, Record>, applied: set<string>, failure: Option<Error>)
    requires SweepInvariant(styled, entities, pending0, size0, ents0, applied0)
    requires StyledEntries(styled, entities)
    ensures multiset(pending) == multiset(styled)
    ensures failure.Some? ==> failure.value.Malformed?
    ensures failure.None? ==> SweepInvariant(styled, entities, pending, size, ents, applied) && size <= size0
    ensures failure.None? && size == size0 ==>
      forall j :: 0 <= j < size ==> Stuck(pending[j], entities, applied)
    ensures failure.None? ==> forall key, value {:trigger Avoids(ents, key, value)} ::
      Inherited(key) && Avoids(entities, key, value) && Avoids(ents0, key, value) ==> Avoids(ents, key, value)
  {
    pending, size, ents, applied := pending0, size0, ents0, applied0;
    var index := 0;
    while index < size
      invariant 0 <= index <= size <= size0
      invariant SweepInvariant(styled, entities, pending, size, ents, applied)
      invariant forall key, value {:trigger Avoids(ents, key, value)} ::
        Inherited(key) && Avoids(entities, key, value) && Avoids(ents0, key, value) ==> Avoids(ents, key, value)
      invariant size == size0 ==> forall j :: 0 <= j < index ==> Stuck(pending[j], entities, applied)
      decreases size - index
    {
      var t := pending[index];
      var fk := FatherKey(t, ents);
      if fk.Err? {
        return pending, size, ents, applied, Some(fk.error);
      }
      var father := ents[fk.value];
      if IsStyleRoot(father) || IdOf(father) in applied {
        var failure;
        pending, size, ents, applied, failure := ResolveAt(styled, entities, pending, size, ents, applied, index);
        if failure.Some? {
          return pending, size, ents, applied, failure;
        }
      } else {
        SkipIsStuck(styled, entities, pending, size, ents, applied, index);
        if size == size0 {
          StuckPrefixExtend(pending, entities, applied, index);
        }
        index := index + 1;
      }
    }
    failure := None;
  }

  /** apply_styles: sweep until every styled entity is resolved; a sweep that
      resolves nothing is a style cycle, reported with the ids of the styled
      entities in their current (swapped) order. */
  method ApplyStyles(styled: seq<Record>, entities: map<string, Record>)
    returns (pending: seq<Record>, r: Result<map<string, Record>>)
    requires Keyed(entities) && StyledEntries(styled, entities)
    ensures multiset(pending) == multiset(styled)
    ensures r.Ok? ==> StylesApplied(styled, entities, r.value)
    ensures r.Err? ==> r.error.StyleCycle? || r.error.Malformed?
    ensures r.Err? && r.error.StyleCycle? ==>
      (forall i :: 0 <= i < |pending| ==> HasStrId(pending[i])) && r.error.pending == Ids(pending) &&
      StuckPrefix(pending, entities)
    ensures r.Ok? ==> forall key, value {:trigger Avoids(r.value, key, value)} ::
      Inherited(key) && Avoids(entities, key, value) ==> Avoids(r.value, key, value)
  {
    pending := styled;
    var ents := entities;
    var size := |pending|;
    var applied: set<string> := {};
    InitialSweep(styled, entities, pending, size, ents, applied);
    while size > 0
      invariant SweepInvariant(styled, entities, pending, size, ents, applied)
      invariant forall key, value {:trigger Avoids(ents, key, value)} ::
        Inherited(key) && Avoids(entities, key, value) ==> Avoids(ents, key, value)
      decreases size
    {
      var sizeCopy := size;
      var failure;
      pending, size, ents, applied, failure := Sweep(styled, entities, pending, size, ents, applied);
      if failure.Some? {
        return pending, Err(failure.value);
      }
      if sizeCopy == size {
        CycleFound(styled, entities, pending, size, ents, applied);
        return pending, Err(StyleCycle(Ids(pending)));
      }
    }
    FinalSweep(styled, entities, pending, ents, applied);
    r := Ok(ents);
  }

  /** A non-empty prefix of the list whose entities are all stuck on the
      entities behind it: what a sweep without progress leaves. */
  ghost predicate StuckPrefix(pending: seq<Record>, entities: map<string, Record>)
  {
    exists size :: 0 < size <= |pending| &&
      forall j :: 0 <= j < size ==> Stuck(pending[j], entities, IdSet(pending[size..]))
  }

  lemma InitialSweep(styled: seq<Record>, entities: map<string, Record>,
                     pending: seq<Record>, size: int, ents: map<string, Record>, applied: set<string>)
    requires Keyed(entities)
    requires pending == styled && size == |styled| && ents == entities && applied == {}
    ensures SweepInvariant(styled, entities, pending, size, ents, applied)
  {
    assert pending[size..] == [];
  }

  lemma CycleFound(styled: seq<Record>, entities: map<string, Record>,
                   pending: seq<Record>, size: int, ents: map<string, Record>, applied: set<string>)
    requires StyledEntries(styled, entities)
    requires SweepFrame(styled, entities, pending, size, ents, applied) && size > 0
    requires forall j :: 0 <= j < size ==> Stuck(pending[j], entities, applied)
    ensures forall i :: 0 <= i < |pending| ==> HasStrId(pending[i])
    ensures StuckPrefix(pending, entities)
  {
    AllHaveIds(styled, entities, pending);
  }

  lemma AllHaveIds(styled: seq<Record>, entities: map<string, Record>, pending: seq<Record>)
    requires StyledEntries(styled, entities) && multiset(pending) == multiset(styled)
    ensures forall i :: 0 <= i < |pending| ==> HasStrId(pending[i])
  {
    forall i | 0 <= i < |pending| ensures HasStrId(pending[i]) {
      StyledAt(pending, entities, i);
    }
  }

  lemma FinalSweep(styled: seq<Record>, entities: map<string, Record>,
                   pending: seq<Record>, ents: map<string, Record>, applied: set<string>)
    requires SweepInvariant(styled, entities, pending, 0, ents, applied)
    ensures StylesApplied(styled, entities, ents)
  {
    forall i | 0 <= i < |styled| ensures ResolvedIn(styled[i], ents) {
      assert styled[i] in multiset(pending);
      var j :| 0 <= j < |pending| && pending[j] == styled[i];
      assert ResolvedOver(pending[j], ents, applied);
    }
    assert pending[0..] == pending;
    assert IdSet(pending) == IdSet(styled) by {
      assert forall t :: t in pending <==> t in styled by {
        forall t ensures t in pending <==> t in styled {
          assert t in pending <==> t in multiset(pending);
          assert t in styled <==> t in multiset(styled);
        }
      }
    }
  }

  /** When every entity that is not awaiting resolution is a style root, a
      stuck remainder is closed under the style-parent relation: the parent of
      every pending entity is itself pending, so the style graph has a cycle. */
  lemma StuckRemainderIsClosed(pending: seq<Record>, size: int, orig: map<string, Record>)
    requires 0 <= size <= |pending| && StyledEntries(pending, orig)
    requires forall k :: k in orig && k !in IdSet(pending) ==> IsStyleRoot(orig[k])
    requires forall j :: 0 <= j < size ==> Stuck(pending[j], orig, IdSet(pending[size..]))
    ensures forall j :: 0 <= j < size ==>
      FatherKey(pending[j], orig).Ok? && FatherKey(pending[j], orig).value in IdSet(pending[..size])
  {
    forall j | 0 <= j < size
      ensures FatherKey(pending[j], orig).Ok? && FatherKey(pending[j], orig).value in IdSet(pending[..size])
    {
      var f := FatherKey(pending[j], orig).value;
      assert f in IdSet(pending);
      var t :| t in pending && HasStrId(t) && IdOf(t) == f;
      var m :| 0 <= m < |pending| && pending[m] == t;
      assert m < size;
      assert t in pending[..size];
    }
  }

  // ---------------------------------------------------------------------
  // check_key_existence

  /** A reference names a key of the map; only a string can. */
  predicate Present<V>(key: Value, dictionary: map<string, V>)
  {
    key.Str? && key.s in dictionary
  }

  /** Every required key must be present; otherwise the error names a missing one. */
  method CheckKeyExistence<V>(keys: set<Value>, dictionary: map<string, V>, dataType: string)
    returns (r: Outcome)
    ensures r.Pass? <==> forall k :: k in keys ==> Present(k, dictionary)
    ensures r.Fail? ==>
      r.error.MissingId? && r.error.kind == dataType && r.error.ref in keys && !Present(r.error.ref, dictionary)
  {
    var rest := keys;
    while rest != {}
      invariant rest <= keys
      invariant forall k :: k in keys - rest ==> Present(k, dictionary)
      decreases rest
    {
      var key :| key in rest;
      if !Present(key, dictionary) {
        return Fail(MissingId(dataType, key));
      }
      rest := rest - {key};
    }
    return Pass;
  }
}
