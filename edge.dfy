/** Edges: reading the `edges` lists of the input files into the edge store,
    and the label normalisation that follows style resolution
    (hiearch/hh_edge.py). */
module Edge {
  import opened Values
  import opened Util
  import opened Store

  // ---------------------------------------------------------------------
  // Edge ids

  /** generate_id: an edge given without an explicit id is named
      `<tail>.<head>`. */
  function GenerateId(tail: string, head: string): (r: string)
    ensures |r| == |tail| + 1 + |head| && r[|tail|] == '.'
    ensures r[..|tail|] == tail && r[|tail| + 1..] == head
  {
    tail + "." + head
  }

  /** The text before the first dot. */
  function BeforeDot(s: string): (r: string)
    ensures |r| <= |s| && '.' !in r
  {
    if |s| == 0 || s[0] == '.' then "" else [s[0]] + BeforeDot(s[1..])
  }

  lemma {:induction false} BeforeDotOfGenerated(tail: string, head: string)
    requires '.' !in tail
    ensures BeforeDot(GenerateId(tail, head)) == tail
  {
    if |tail| > 0 {
      assert GenerateId(tail, head)[1..] == GenerateId(tail[1..], head);
      BeforeDotOfGenerated(tail[1..], head);
      assert tail == [tail[0]] + tail[1..];
    }
  }

  /** Generated ids tell links apart as long as tail names hold no dot;
      with dots, `a.b -> c` and `a -> b.c` both get the id `a.b.c`. */
  lemma GenerateIdInjective(t1: string, h1: string, t2: string, h2: string)
    requires '.' !in t1 && '.' !in t2
    requires GenerateId(t1, h1) == GenerateId(t2, h2)
    ensures t1 == t2 && h1 == h2
  {
    BeforeDotOfGenerated(t1, h1);
    BeforeDotOfGenerated(t2, h2);
  }

  /** get_style_key: a style given as a link `[tail, head, ...]` names the
      edge with the generated id of that link; any other value is the key
      itself.  A shorter list is Python's IndexError. */
  function StyleKey(style: Value): (r: Result<Value>)
    ensures r.Err? <==> style.StrList? && |style.items| < 2
    ensures r.Ok? ==> !r.value.StrList?
    ensures r.Ok? && style.StrList? ==> r.value == Str(GenerateId(style.items[0], style.items[1]))
    ensures !style.StrList? ==> r == Ok(style)
  {
    match style
    case StrList(items) =>
      if |items| < 2 then Err(Malformed("style link")) else Ok(Str(GenerateId(items[0], items[1])))
    case _ => Ok(style)
  }

  // ---------------------------------------------------------------------
  // parse

  /** The record every edge without a style is merged over. */
  const DefaultEdge: Record := map[
    "link" := StrList(["", ""]),
    "style" := Null,
    "graphviz" := Dict(map[]),
    "label" := StrList([]),
    "substitutions" := Dict(map[]),
    "id" := Null,
    "in" := Null,
    "out" := Null,
    "scope_in" := Null,
    "scope_out" := Null
  ]

  /** An edge after its endpoints and id are read from its link. */
  datatype Link = Link(tail: string, head: string, id: string, record: Record)

  /** The first half of the parse loop body: `out`, `in` and `id` are set
      from the link; see ReadLinkSpec. */
  function ReadLink(e: Record): (r: Result<Link>)
    ensures r.Err? ==> r.error.Malformed?
  {
    if "link" !in e || Positional(e["link"]).None? || |Positional(e["link"]).value| < 2 then
      Err(Malformed("edge link"))
    else
      var items := Positional(e["link"]).value;
      var id := if |items| > 2 then items[2] else GenerateId(items[0], items[1]);
      Ok(Link(items[0], items[1], id, e["out" := Str(items[0])]["in" := Str(items[1])]["id" := Str(id)]))
  }

  /** A link of at least two elements is needed; its first two are the tail
      (`out`) and head (`in`), the third, when there is one, the id, which
      is otherwise generated; the record gains those three keys and keeps
      every other. */
  lemma ReadLinkSpec(e: Record)
    ensures var r := ReadLink(e);
      (r.Ok? <==> "link" in e && Positional(e["link"]).Some? && |Positional(e["link"]).value| >= 2) &&
      (r.Ok? ==>
        var items := Positional(e["link"]).value;
        r.value.tail == items[0] && r.value.head == items[1] &&
        r.value.id == (if |items| > 2 then items[2] else GenerateId(items[0], items[1])) &&
        r.value.record.Keys == e.Keys + {"out", "in", "id"} &&
        r.value.record["out"] == Str(items[0]) && r.value.record["in"] == Str(items[1]) &&
        r.value.record["id"] == Str(r.value.id) &&
        (forall k :: k in e && k != "out" && k != "in" && k != "id" ==> r.value.record[k] == e[k]))
  {
  }

  /** A value Python can put in a set: None or a string (lists, dicts and
      sets are unhashable). */
  predicate Hashable(v: Value)
  {
    v.Null? || v.Str?
  }

  /** What is stored for an edge, and the style it must find: an edge with a
      `style` key (even a null one) is stored raw with its style key
      normalised and waits for apply_styles; any other edge is merged over
      the default record.  A normalised style key that is a dict or a set
      cannot join the set of references (Python's TypeError). */
  function StoredEdge(link: Link): (r: Result<(Record, Option<Value>)>)
    ensures r.Err? ==> r.error.Malformed?
    ensures r.Ok? ==> (r.value.1.Some? <==> "style" in link.record)
    ensures "style" in link.record ==>
      (r.Ok? <==> StyleKey(link.record["style"]).Ok? && Hashable(StyleKey(link.record["style"]).value))
    ensures r.Ok? && "style" in link.record ==>
      r.value.1 == Some(StyleKey(link.record["style"]).value) && Hashable(r.value.1.value) &&
      r.value.0 == link.record["style" := r.value.1.value]
  {
    if "style" in link.record then
      var key :- StyleKey(link.record["style"]);
      if !Hashable(key) then Err(Malformed("unhashable edge style"))
      else Ok((link.record["style" := key], Some(key)))
    else
      var merged :- MergeStyles(DefaultEdge, link.record, true);
      Ok((merged, None))
  }

  /** Whichever way it is stored, the record keeps the id read from the link;
      a merged one carries every key of the default record. */
  lemma StoredEdgeKeepsId(link: Link)
    requires "id" in link.record && link.record["id"] == Str(link.id)
    requires StoredEdge(link).Ok?
    ensures HasStrId(StoredEdge(link).value.0) && IdOf(StoredEdge(link).value.0) == link.id
    ensures StoredEdge(link).value.1.None? ==> DefaultEdge.Keys <= StoredEdge(link).value.0.Keys
  {
    if "style" !in link.record {
      var merged := MergeStyles(DefaultEdge, link.record, true).value;
      MergeKeepsId(DefaultEdge, link.record, true, merged);
      MergeStylesSpec(DefaultEdge, link.record, true);
    }
  }

  /** The four stores the edge parser writes: the edge map, the references
      edges make to other edges, the edges awaiting styles, and the node
      references every link makes. */
  datatype EdgeState = EdgeState(entities: map<string, Record>, mustExist: set<Value>,
                                 styled: seq<Record>, nodeRefs: set<Value>)

  /** One iteration of the parse loop. */
  function AddEdge(st: EdgeState, e: Record): Result<EdgeState>
  {
    var link :- ReadLink(e);
    if link.id in st.entities then Err(DuplicateId("edge", link.id))
    else
      var refs := st.nodeRefs + {Str(link.head), Str(link.tail)};
      var stored :- StoredEdge(link);
      var entities := st.entities[link.id := stored.0];
      match stored.1
      case Some(style) => Ok(EdgeState(entities, st.mustExist + {style}, st.styled + [stored.0], refs))
      case None => Ok(EdgeState(entities, st.mustExist, st.styled, refs))
  }

  /** The parse loop over a list of edges; the first error ends it. */
  function AddEdges(st: EdgeState, yaml: seq<Record>): Result<EdgeState>
  {
    if |yaml| == 0 then Ok(st)
    else
      var before :- AddEdges(st, yaml[..|yaml| - 1]);
      AddEdge(before, yaml[|yaml| - 1])
  }

  /** Once an error occurs the rest of the list is not looked at. */
  lemma {:induction false} AddEdgesErrorStops(st: EdgeState, yaml: seq<Record>, n: nat)
    requires n <= |yaml| && AddEdges(st, yaml[..n]).Err?
    ensures AddEdges(st, yaml) == AddEdges(st, yaml[..n])
    decreases |yaml| - n
  {
    if n < |yaml| {
      assert yaml[..n + 1][..n] == yaml[..n];
      AddEdgesErrorStops(st, yaml, n + 1);
    } else {
      assert yaml[..n] == yaml;
    }
  }

  /** parse(yaml_edges, edges, must_exist_nodes). */
  method Parse(yamlEdges: seq<Record>, edges: ParsedEntities, nodes: ParsedEntities) returns (r: Outcome)
    requires edges != nodes
    modifies edges, nodes`mustExist
    ensures var expected := AddEdges(EdgeState(old(edges.entities), old(edges.mustExist),
                                               old(edges.styled), old(nodes.mustExist)), yamlEdges);
      (r.Pass? <==> expected.Ok?) &&
      (r.Pass? ==> expected.value == EdgeState(edges.entities, edges.mustExist, edges.styled, nodes.mustExist)) &&
      (r.Fail? ==> expected == Err(r.error))
  {
    ghost var st0 := EdgeState(edges.entities, edges.mustExist, edges.styled, nodes.mustExist);
    var i := 0;
    assert yamlEdges[..0] == [];
    while i < |yamlEdges|
      invariant 0 <= i <= |yamlEdges|
      invariant AddEdges(st0, yamlEdges[..i]) == Ok(EdgeState(edges.entities, edges.mustExist, edges.styled, nodes.mustExist))
    {
      assert yamlEdges[..i + 1][..i] == yamlEdges[..i];
      var e := yamlEdges[i];
      var link := ReadLink(e);
      if link.Err? {
        AddEdgesErrorStops(st0, yamlEdges, i + 1);
        return Fail(link.error);
      }
      var key := link.value.id;
      if key in edges.entities {
        AddEdgesErrorStops(st0, yamlEdges, i + 1);
        return Fail(DuplicateId("edge", key));
      }
      nodes.mustExist := nodes.mustExist + {Str(link.value.head), Str(link.value.tail)};
      if "style" in link.value.record {
        var style := StyleKey(link.value.record["style"]);
        if style.Err? {
          AddEdgesErrorStops(st0, yamlEdges, i + 1);
          return Fail(style.error);
        }
        if !Hashable(style.value) {
          AddEdgesErrorStops(st0, yamlEdges, i + 1);
          return Fail(Malformed("unhashable edge style"));
        }
        var stored := link.value.record["style" := style.value];
        edges.mustExist := edges.mustExist + {style.value};
        edges.styled := edges.styled + [stored];
        edges.entities := edges.entities[key := stored];
      } else {
        var merged := MergeStyles(DefaultEdge, link.value.record, true);
        if merged.Err? {
          AddEdgesErrorStops(st0, yamlEdges, i + 1);
          return Fail(merged.error);
        }
        edges.entities := edges.entities[key := merged.value];
      }
      i := i + 1;
    }
    assert yamlEdges[..i] == yamlEdges;
    return Pass;
  }

  // ---------------------------------------------------------------------
  // What parsing establishes

  /** The ids of the edges of a list whose links can be read, in order. */
  function LinkIds(yaml: seq<Record>): seq<string>
  {
    if |yaml| == 0 then []
    else
      var link := ReadLink(yaml[|yaml| - 1]);
      LinkIds(yaml[..|yaml| - 1]) + (if link.Ok? then [link.value.id] else [])
  }

  /** The node references the links of a list make. */
  function Endpoints(yaml: seq<Record>): set<Value>
  {
    if |yaml| == 0 then {}
    else
      var link := ReadLink(yaml[|yaml| - 1]);
      Endpoints(yaml[..|yaml| - 1]) + (if link.Ok? then {Str(link.value.head), Str(link.value.tail)} else {})
  }

  lemma AddEdgeResolvable(st: EdgeState, e: Record, st': EdgeState)
    requires Resolvable(st.entities, st.styled)
    requires AddEdge(st, e) == Ok(st')
    ensures Resolvable(st'.entities, st'.styled)
  {
    ReadLinkSpec(e);
    var link := ReadLink(e).value;
    var stored := StoredEdge(link).value;
    StoredEdgeKeepsId(link);
    AddKeepsResolvable(st.entities, st.styled, stored.0, stored.1.Some?);
  }

  /** Parsing keeps the edge store in the shape apply_styles needs: every
      edge stored under its id, every styled edge queued once. */
  lemma {:induction false} AddEdgesResolvable(st: EdgeState, yaml: seq<Record>)
    requires Resolvable(st.entities, st.styled)
    ensures AddEdges(st, yaml).Ok? ==> Resolvable(AddEdges(st, yaml).value.entities, AddEdges(st, yaml).value.styled)
  {
    if |yaml| > 0 {
      var init := yaml[..|yaml| - 1];
      AddEdgesResolvable(st, init);
      if AddEdges(st, yaml).Ok? {
        AddEdgeResolvable(AddEdges(st, init).value, yaml[|yaml| - 1], AddEdges(st, yaml).value);
      }
    }
  }

  /** One step of the fold, with the states before and after named. */
  lemma AddEdgesStep(st: EdgeState, yaml: seq<Record>, before: EdgeState, after: EdgeState)
    requires |yaml| > 0
    requires AddEdges(st, yaml[..|yaml| - 1]) == Ok(before) && AddEdges(st, yaml) == Ok(after)
    ensures AddEdge(before, yaml[|yaml| - 1]) == Ok(after)
    ensures ReadLink(yaml[|yaml| - 1]).Ok?
    ensures LinkIds(yaml) == LinkIds(yaml[..|yaml| - 1]) + [ReadLink(yaml[|yaml| - 1]).value.id]
    ensures Endpoints(yaml) == Endpoints(yaml[..|yaml| - 1]) +
      {Str(ReadLink(yaml[|yaml| - 1]).value.head), Str(ReadLink(yaml[|yaml| - 1]).value.tail)}
  {
  }

  lemma AddEdgeEntities(st: EdgeState, e: Record, st': EdgeState)
    requires AddEdge(st, e) == Ok(st')
    ensures ReadLink(e).Ok? && ReadLink(e).value.id !in st.entities
    ensures st'.entities == st.entities[ReadLink(e).value.id := StoredEdge(ReadLink(e).value).value.0]
    ensures st'.nodeRefs == st.nodeRefs + {Str(ReadLink(e).value.head), Str(ReadLink(e).value.tail)}
  {
  }

  /** A successful parse stores one new entry per edge, each under its own
      id and none over an existing one, keeps every existing entry, and
      records both endpoints of every link as node references. */
  lemma {:induction false} AddEdgesEntities(st: EdgeState, yaml: seq<Record>)
    requires AddEdges(st, yaml).Ok?
    ensures var st' := AddEdges(st, yaml).value;
      |LinkIds(yaml)| == |yaml| &&
      (forall k :: k in st'.entities <==> k in st.entities || k in LinkIds(yaml)) &&
      |st'.entities| == |st.entities| + |yaml| &&
      (forall k :: k in st.entities ==> st'.entities[k] == st.entities[k]) &&
      st'.nodeRefs == st.nodeRefs + Endpoints(yaml)
  {
    if |yaml| > 0 {
      var init := yaml[..|yaml| - 1];
      AddEdgesEntities(st, init);
      var before := AddEdges(st, init).value;
      var after := AddEdges(st, yaml).value;
      AddEdgesStep(st, yaml, before, after);
      var e := yaml[|yaml| - 1];
      AddEdgeEntities(before, e, after);
      FreshKeyAdded(st.entities, before.entities, after.entities, LinkIds(init), ReadLink(e).value.id,
                    StoredEdge(ReadLink(e).value).value.0);
    }
  }

  lemma FreshKeyAdded(m0: map<string, Record>, m1: map<string, Record>, m2: map<string, Record>,
                      ids: seq<string>, id: string, v: Record)
    requires forall k :: k in m1 <==> k in m0 || k in ids
    requires forall k :: k in m0 ==> m1[k] == m0[k]
    requires id !in m1 && m2 == m1[id := v]
    ensures forall k :: k in m2 <==> k in m0 || k in ids + [id]
    ensures |m2| == |m1| + 1
    ensures forall k :: k in m0 ==> m2[k] == m0[k]
  {
    assert m2.Keys == m1.Keys + {id};
  }

  /** A duplicate-id error names the id of an edge of the list that an
      existing edge or an earlier edge of the list already has. */
  lemma {:induction false} AddEdgesDuplicate(st: EdgeState, yaml: seq<Record>)
    requires AddEdges(st, yaml).Err? && AddEdges(st, yaml).error.DuplicateId?
    ensures var k := AddEdges(st, yaml).error.id;
      exists i :: 0 <= i < |yaml| && ReadLink(yaml[i]).Ok? && ReadLink(yaml[i]).value.id == k &&
        (k in st.entities || k in LinkIds(yaml[..i]))
  {
    var init := yaml[..|yaml| - 1];
    var k := AddEdges(st, yaml).error.id;
    if AddEdges(st, init).Err? {
      assert AddEdges(st, init) == AddEdges(st, yaml);
      AddEdgesDuplicate(st, init);
      var i :| 0 <= i < |init| && ReadLink(init[i]).Ok? && ReadLink(init[i]).value.id == k &&
        (k in st.entities || k in LinkIds(init[..i]));
      DuplicateInInit(st, yaml, k, i);
    } else {
      DuplicateAtLast(st, yaml);
    }
  }

  lemma DuplicateInInit(st: EdgeState, yaml: seq<Record>, k: string, i: nat)
    requires 0 <= i < |yaml| - 1
    requires ReadLink(yaml[..|yaml| - 1][i]).Ok? && ReadLink(yaml[..|yaml| - 1][i]).value.id == k
    requires k in st.entities || k in LinkIds(yaml[..|yaml| - 1][..i])
    ensures ReadLink(yaml[i]).Ok? && ReadLink(yaml[i]).value.id == k && (k in st.entities || k in LinkIds(yaml[..i]))
  {
    assert yaml[..|yaml| - 1][..i] == yaml[..i];
  }

  lemma DuplicateAtLast(st: EdgeState, yaml: seq<Record>)
    requires |yaml| > 0 && AddEdges(st, yaml[..|yaml| - 1]).Ok?
    requires AddEdges(st, yaml).Err? && AddEdges(st, yaml).error.DuplicateId?
    ensures var k := AddEdges(st, yaml).error.id; var last := |yaml| - 1;
      ReadLink(yaml[last]).Ok? && ReadLink(yaml[last]).value.id == k &&
      (k in st.entities || k in LinkIds(yaml[..last]))
  {
    var init := yaml[..|yaml| - 1];
    var before := AddEdges(st, init).value;
    var last := |yaml| - 1;
    assert AddEdge(before, yaml[last]) == AddEdges(st, yaml);
    LastIsDuplicate(before, yaml[last]);
    AddEdgesEntities(st, init);
  }

  lemma LastIsDuplicate(before: EdgeState, e: Record)
    requires AddEdge(before, e).Err? && AddEdge(before, e).error.DuplicateId?
    ensures ReadLink(e).Ok? && ReadLink(e).value.id == AddEdge(before, e).error.id
    ensures ReadLink(e).value.id in before.entities
  {
  }

  // ---------------------------------------------------------------------
  // postprocess

  /** Python's `len` on a value; `None` has none. */
  function Len(v: Value): (r: Result<nat>)
    ensures r.Err? <==> v.Null?
  {
    match v
    case Null => Err(Malformed("len of None"))
    case Str(s) => Ok(|s|)
    case StrList(items) => Ok(|items|)
    case StrSet(elems) => Ok(|elems|)
    case Dict(entries) => Ok(|entries|)
  }

  const ThreeFormats: Value := StrList(["{label}", "{label}", "{label}"])

  /** The body of the label loop of postprocess: labels and label formats
      become (tail, middle, head) triples. */
  function NormalizeLabel(edge: Record): (r: Result<Record>)
    ensures r.Err? ==> r.error.Malformed?
  {
    if "label" !in edge || "graphviz" !in edge || !edge["graphviz"].Dict? then Err(Malformed("edge label"))
    else
      var text := if edge["label"].Str? then StrList(["", edge["label"].s, ""]) else edge["label"];
      var graphviz := edge["graphviz"].entries;
      if "label_format" in graphviz then
        var format := graphviz["label_format"];
        var format' := if format.Str? then StrList(["{label}", format.s, "{label}"]) else format;
        var size :- Len(text);
        var text' := if size == 0 then StrList(["", "", ""]) else text;
        Ok(edge["label" := text']["graphviz" := Dict(graphviz["label_format" := format'])])
      else
        Ok(edge["label" := text]["graphviz" := Dict(graphviz["label_format" := ThreeFormats])])
  }

  /** A one-string label becomes the middle of a triple, a one-string format
      the middle of a format triple, a missing format three plain `{label}`
      slots, and an empty label three empty parts when a format was given;
      every other key and attribute is kept. */
  lemma NormalizeLabelSpec(edge: Record)
    ensures var r := NormalizeLabel(edge);
      (r.Ok? <==> "label" in edge && "graphviz" in edge && edge["graphviz"].Dict? &&
                  ("label_format" in edge["graphviz"].entries ==> !edge["label"].Null?)) &&
      (r.Ok? ==> (r.value.Keys == edge.Keys &&
        (forall k :: k in edge && k != "label" && k != "graphviz" ==> r.value[k] == edge[k]) &&
        !r.value["label"].Str? &&
        (edge["label"].Str? ==> r.value["label"] == StrList(["", edge["label"].s, ""])) &&
        r.value["graphviz"].Dict? &&
        r.value["graphviz"].entries.Keys == edge["graphviz"].entries.Keys + {"label_format"} &&
        (forall k :: k in edge["graphviz"].entries && k != "label_format" ==>
          r.value["graphviz"].entries[k] == edge["graphviz"].entries[k]) &&
        !r.value["graphviz"].entries["label_format"].Str? &&
        ("label_format" !in edge["graphviz"].entries ==> r.value["graphviz"].entries["label_format"] == ThreeFormats) &&
        ("label_format" in edge["graphviz"].entries ==>
          var format := edge["graphviz"].entries["label_format"];
          r.value["graphviz"].entries["label_format"] ==
            (if format.Str? then StrList(["{label}", format.s, "{label}"]) else format)) &&
        ("label_format" in edge["graphviz"].entries && Len(edge["label"]) == Ok(0) ==>
          r.value["label"] == StrList(["", "", ""])) &&
        (!edge["label"].Str? && !("label_format" in edge["graphviz"].entries && Len(edge["label"]) == Ok(0)) ==>
          r.value["label"] == edge["label"])))
  {
  }

  /** Normalising twice changes at most one thing: an empty label that had
      no format to go with becomes three empty parts; a missing (null)
      label that had none cannot be measured on the second pass. */
  lemma NormalizeLabelTwice(edge: Record)
    requires NormalizeLabel(edge).Ok?
    ensures var once := NormalizeLabel(edge).value;
      (NormalizeLabel(once).Ok? <==> !once["label"].Null?) &&
      (NormalizeLabel(once).Ok? ==>
        NormalizeLabel(once).value ==
          if Len(once["label"]) == Ok(0) then once["label" := StrList(["", "", ""])] else once)
  {
    var once := NormalizeLabel(edge).value;
    NormalizeLabelSpec(edge);
    NormalizeLabelSpec(once);
    var graphviz := once["graphviz"].entries;
    assert graphviz["label_format" := graphviz["label_format"]] == graphviz;
    assert once["graphviz" := Dict(graphviz)] == once;
    assert once["label" := once["label"]] == once;
  }

  /** The work of postprocess on the store's values: every style reference
      must name an edge, styles are applied (reordering the styled list as
      apply_styles does), and the labels are normalised. */
  method Resolve(mustExist: set<Value>, entities: map<string, Record>, styled: seq<Record>)
    returns (pending: seq<Record>, r: Result<map<string, Record>>, ghost resolved: map<string, Record>)
    requires Resolvable(entities, styled)
    ensures r.Ok? ==> forall k :: k in mustExist ==> Present(k, entities)
    ensures r.Ok? ==>
      multiset(pending) == multiset(styled) &&
      StylesApplied(styled, entities, resolved) &&
      r.value.Keys == resolved.Keys &&
      forall k :: k in resolved ==> NormalizeLabel(resolved[k]) == Ok(r.value[k])
    ensures r.Err? ==> r.error.MissingId? || r.error.StyleCycle? || r.error.Malformed?
  {
    pending, resolved := styled, entities;
    var check := CheckKeyExistence(mustExist, entities, "edge");
    if check.Fail? {
      return pending, Err(check.error), resolved;
    }
    var applied;
    pending, applied := ApplyStyles(styled, entities);
    if applied.Err? {
      return pending, Err(applied.error), resolved;
    }
    resolved := applied.value;
    r := MapEntries(applied.value, NormalizeLabel);
  }

  /** postprocess(edges), writing the results back into the store. */
  method Postprocess(edges: ParsedEntities) returns (r: Outcome, ghost resolved: map<string, Record>)
    requires Resolvable(edges.entities, edges.styled)
    modifies edges
    ensures edges.mustExist == old(edges.mustExist)
    ensures r.Pass? ==> forall k :: k in old(edges.mustExist) ==> Present(k, old(edges.entities))
    ensures r.Pass? ==>
      multiset(edges.styled) == multiset(old(edges.styled)) &&
      StylesApplied(old(edges.styled), old(edges.entities), resolved) &&
      edges.entities.Keys == resolved.Keys &&
      forall k :: k in resolved ==> NormalizeLabel(resolved[k]) == Ok(edges.entities[k])
    ensures r.Fail? ==> r.error.MissingId? || r.error.StyleCycle? || r.error.Malformed?
  {
    var pending, result;
    pending, result, resolved := Resolve(edges.mustExist, edges.entities, edges.styled);
    edges.styled := pending;
    if result.Err? {
      return Fail(result.error), resolved;
    }
    edges.entities := result.value;
    r := Pass;
  }
}
