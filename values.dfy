/** Dynamic records, errors and string helpers shared by the whole model.

    The source keeps every node, edge and view as a Python dictionary parsed
    from YAML.  A `Record` is such a dictionary; a `Value` is what one of its
    keys can hold.  Python exceptions become the `Err` case of `Result`. */
module Values {

  datatype Value =
    | Null
    | Str(s: string)
    | StrList(items: seq<string>)
    | StrSet(elems: set<string>)
    | Dict(entries: map<string, Value>)

  type Record = map<string, Value>

  /** The fatal errors the resolution can raise.  `Malformed` stands for the
      KeyError, TypeError or IndexError Python raises on a record of the
      wrong shape; `Diverges` marks a state in which the source loops forever. */
  datatype Error =
    | DuplicateId(kind: string, id: string)
    | MissingId(kind: string, ref: Value)
    | StyleCycle(pending: seq<string>)
    | ScopeCycle(branch: seq<string>, id: string)
    | BothStyles(id: string)
    | DuplicateScope(nodeLabel: string)
    | DuplicateViewNode(view: string)
    | AllViewsEmpty
    | UnsupportedNeighbours(policy: Value)
    | ExpandNotList(view: string)
    | UnsupportedExpand(expandType: Value, view: string)
    | Malformed(what: string)
    | Diverges(id: string)

  datatype Result<+T> = Ok(value: T) | Err(error: Error) {
    predicate IsFailure() { Err? }
    function PropagateFailure<U>(): Result<U> requires Err? { Err(error) }
    function Extract(): T requires Ok? { value }
  }

  datatype Outcome = Pass | Fail(error: Error) {
    predicate IsFailure() { Fail? }
    function PropagateFailure(): Outcome requires Fail? { this }
  }

  datatype Option<+T> = None | Some(value: T)

  /** A value indexed by position as Python indexes it: a list by element,
      a string by character; anything else cannot be indexed so. */
  function Positional(v: Value): (r: Option<seq<string>>)
    ensures r.Some? <==> v.StrList? || v.Str?
    ensures v.StrList? ==> r == Some(v.items)
    ensures v.Str? ==> |r.value| == |v.s| && forall i :: 0 <= i < |v.s| ==> r.value[i] == [v.s[i]]
  {
    match v
    case StrList(items) => Some(items)
    case Str(s) => Some(seq(|s|, i requires 0 <= i < |s| => [s[i]]))
    case _ => None
  }

  /** Python's `sep.join(parts)`. */
  function Join(sep: string, parts: seq<string>): (r: string)
    ensures |parts| == 1 ==> r == parts[0]
  {
    if |parts| == 0 then ""
    else if |parts| == 1 then parts[0]
    else Join(sep, parts[..|parts| - 1]) + sep + parts[|parts| - 1]
  }

  lemma JoinSnoc(sep: string, parts: seq<string>, p: string)
    requires |parts| > 0
    ensures Join(sep, parts + [p]) == Join(sep, parts) + sep + p
  {
    assert (parts + [p])[..|parts|] == parts;
  }

  /** Python's `a < b` on strings: lexicographic order of code points. */
  predicate StrLess(a: string, b: string)
  {
    if |b| == 0 then false
    else if |a| == 0 then true
    else if a[0] != b[0] then a[0] < b[0]
    else StrLess(a[1..], b[1..])
  }

  lemma {:induction false} StrLessIrreflexive(a: string)
    ensures !StrLess(a, a)
  {
    if |a| > 0 { StrLessIrreflexive(a[1..]); }
  }

  /** The string id held by a record's `id` key. */
  predicate HasStrId(r: Record)
  {
    "id" in r && r["id"].Str?
  }

  function IdOf(r: Record): string
    requires HasStrId(r)
  {
    r["id"].s
  }

  /** Every entry of an entity map is stored under its own id; the parsers
      establish this and style merging preserves it. */
  ghost predicate Keyed(entities: map<string, Record>)
  {
    forall k :: k in entities ==> HasStrId(entities[k]) && IdOf(entities[k]) == k
  }

  /** The members of a list, as Python's `set(xs)` collects them. */
  ghost function Elems(s: seq<string>): set<string>
  {
    set x | x in s
  }

  /** Python's `set(xs)` together with the duplicate test `len(xs) != len(set(xs))`. */
  predicate HasDuplicates(xs: seq<string>)
  {
    exists i, j :: 0 <= i < j < |xs| && xs[i] == xs[j]
  }

  lemma {:induction false} DistinctCard(xs: seq<string>)
    requires !HasDuplicates(xs)
    ensures |set x | x in xs| == |xs|
  {
    if |xs| > 0 {
      var init := xs[..|xs| - 1];
      assert !HasDuplicates(init) by {
        forall i, j | 0 <= i < j < |init| ensures init[i] != init[j] {
          assert xs[i] != xs[j];
        }
      }
      DistinctCard(init);
      var last := xs[|xs| - 1];
      assert last !in init by {
        forall i | 0 <= i < |init| ensures init[i] != last {
          assert xs[i] != xs[|xs| - 1];
        }
      }
      assert (set x | x in xs) == (set x | x in init) + {last};
    }
  }

  lemma {:induction false} DuplicatesCard(xs: seq<string>)
    requires HasDuplicates(xs)
    ensures |set x | x in xs| < |xs|
  {
    var i, j :| 0 <= i < j < |xs| && xs[i] == xs[j];
    var rest := xs[..j] + xs[j + 1..];
    assert (set x | x in xs) == (set x | x in rest) by {
      forall x | x in xs ensures x in rest {
        var k :| 0 <= k < |xs| && xs[k] == x;
        if k == j { assert rest[i] == x; }
        else if k < j { assert rest[k] == x; }
        else { assert rest[k - 1] == x; }
      }
    }
    SetOfSeqCard(rest);
  }

  lemma {:induction false} SetOfSeqCard(xs: seq<string>)
    ensures |set x | x in xs| <= |xs|
  {
    if |xs| > 0 {
      var init := xs[..|xs| - 1];
      SetOfSeqCard(init);
      assert (set x | x in xs) == (set x | x in init) + {xs[|xs| - 1]};
    }
  }

  /** What Python's length comparison detects: the list has a repeat exactly
      when the set built from it is smaller. */
  lemma DuplicatesIffSmallerSet(xs: seq<string>)
    ensures HasDuplicates(xs) <==> |set x | x in xs| != |xs|
  {
    if HasDuplicates(xs) { DuplicatesCard(xs); } else { DistinctCard(xs); }
  }
}
