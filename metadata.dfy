/**
 * The libhaggle metadata tree (metadata.c): a node has a name, content, a
 * parent, an ordered list of children, a count of children, a list of named
 * parameters and one child iterator, optionally filtered by child name.
 *
 * list.h and the attribute list functions are not part of this model. The
 * model assumes that `list_add` appends at the tail of the child list, and
 * that the attribute list finds the first parameter with a given name. The
 * iterator is a position in the child list; the position equal to the number
 * of children is the list head (the end).
 */
module Metadata {
  import opened Wrappers

  /** A named parameter of a metadata node. */
  datatype Parameter = Parameter(name: string, value: string)

  // ---------------------------------------------------------------------------
  // Parameters

  /** `haggle_attributelist_get_attribute_by_name`: the first parameter called
   *  `name`. */
  function FindParam(ps: seq<Parameter>, name: string): (r: Option<nat>)
    ensures r.Some? ==> r.value < |ps| && ps[r.value].name == name
    ensures r.Some? ==> forall j :: 0 <= j < r.value ==> ps[j].name != name
    ensures r.None? <==> forall j :: 0 <= j < |ps| ==> ps[j].name != name
  {
    if ps == [] then None
    else if ps[0].name == name then Some(0)
    else
      var r := FindParam(ps[1..], name);
      assert forall j :: 1 <= j < |ps| ==> ps[j] == ps[1..][j - 1];
      if r.Some? then Some(r.value + 1) else None
  }

  /** The value of the first parameter called `name`. */
  function Lookup(ps: seq<Parameter>, name: string): (v: Option<string>)
  {
    match FindParam(ps, name)
    case None => None
    case Some(k) => Some(ps[k].value)
  }

  /** What `metadata_set_parameter` does to the list: overwrite the value of the
   *  first parameter of that name, or append a new one. */
  function Upsert(ps: seq<Parameter>, name: string, value: string): (r: seq<Parameter>)
  {
    match FindParam(ps, name)
    case None => ps + [Parameter(name, value)]
    case Some(k) => ps[k := Parameter(name, value)]
  }

  /** After setting a parameter, reading it gives the value set, and every
   *  other parameter reads as before. */
  lemma LookupUpsert(ps: seq<Parameter>, name: string, value: string, other: string)
    ensures Lookup(Upsert(ps, name, value), name) == Some(value)
    ensures other != name ==> Lookup(Upsert(ps, name, value), other) == Lookup(ps, other)
    ensures |Upsert(ps, name, value)| == |ps| + (if FindParam(ps, name).None? then 1 else 0)
  {
    var r := Upsert(ps, name, value);
    match FindParam(ps, name)
    case None =>
      assert FindParam(r, name) == Some(|ps|) by {
        FindParamIs(r, name, |ps|);
      }
      if other != name {
        FindParamAppend(ps, Parameter(name, value), other);
      }
    case Some(k) =>
      FindParamIs(r, name, k);
      if other != name {
        FindParamSame(ps, r, other);
      }
  }

  lemma FindParamIs(ps: seq<Parameter>, name: string, k: nat)
    requires k < |ps| && ps[k].name == name
    requires forall j :: 0 <= j < k ==> ps[j].name != name
    ensures FindParam(ps, name) == Some(k)
  {
    var r := FindParam(ps, name);
    assert r.Some? && ps[k].name == name;
  }

  lemma FindParamAppend(ps: seq<Parameter>, p: Parameter, other: string)
    requires p.name != other
    ensures FindParam(ps + [p], other) == FindParam(ps, other)
  {
    var q := ps + [p];
    match FindParam(ps, other)
    case None =>
    case Some(k) =>
      FindParamIs(q, other, k);
  }

  /** Two lists whose names agree position by position and whose values agree
   *  wherever the name is `other` read the same for `other`. */
  lemma FindParamSame(ps: seq<Parameter>, qs: seq<Parameter>, other: string)
    requires |ps| == |qs|
    requires forall j :: 0 <= j < |ps| ==> (ps[j].name == other <==> qs[j].name == other)
    requires forall j :: 0 <= j < |ps| && ps[j].name == other ==> ps[j] == qs[j]
    ensures Lookup(ps, other) == Lookup(qs, other)
  {
    match FindParam(ps, other)
    case None =>
    case Some(k) =>
      FindParamIs(qs, other, k);
  }

  // ---------------------------------------------------------------------------
  // The child iterator, on the children's names

  /** Whether a child's name passes the iterator's filter (None: no filter). A
   *  child without a name never passes a filter. */
  predicate Passes(name: Option<string>, filter: Option<string>)
  {
    filter.None? || name == filter
  }

  /** The first position from `from` on whose child passes the filter, or the
   *  end. */
  function Seek(names: seq<Option<string>>, from: nat, filter: Option<string>): (k: nat)
    requires from <= |names|
    ensures from <= k <= |names|
    ensures k < |names| ==> Passes(names[k], filter)
    ensures forall j :: from <= j < k ==> !Passes(names[j], filter)
    decreases |names| - from
  {
    if from == |names| || Passes(names[from], filter) then from else Seek(names, from + 1, filter)
  }

  /** The positions from `from` on whose children pass the filter, in order. */
  function Remaining(names: seq<Option<string>>, from: nat, filter: Option<string>): (ps: seq<nat>)
    requires from <= |names|
    decreases |names| - from
  {
    if from == |names| then []
    else (if Passes(names[from], filter) then [from] else []) + Remaining(names, from + 1, filter)
  }

  /** The position after `metadata_get` and then `steps` calls of
   *  `metadata_get_next`, when the iterator stands at Seek(names, from, filter)
   *  to begin with. */
  function Walk(names: seq<Option<string>>, from: nat, filter: Option<string>, steps: nat): (k: nat)
    requires from <= |names|
    ensures k <= |names|
    decreases steps
  {
    var p := Seek(names, from, filter);
    if steps == 0 || p == |names| then p else Walk(names, p + 1, filter, steps - 1)
  }

  lemma {:induction false} RemainingFromSeek(names: seq<Option<string>>, from: nat, filter: Option<string>)
    requires from <= |names|
    ensures var p := Seek(names, from, filter);
      Remaining(names, from, filter) == if p == |names| then [] else [p] + Remaining(names, p + 1, filter)
    decreases |names| - from
  {
    if from < |names| && !Passes(names[from], filter) {
      RemainingFromSeek(names, from + 1, filter);
    }
  }

  /** Walking the iterator visits exactly the passing children, in list order,
   *  and then stays at the end. */
  lemma {:induction false} WalkVisitsPassing(names: seq<Option<string>>, from: nat, filter: Option<string>, steps: nat)
    requires from <= |names|
    ensures var rest := Remaining(names, from, filter);
      Walk(names, from, filter, steps) == if steps < |rest| then rest[steps] else |names|
    decreases steps
  {
    RemainingFromSeek(names, from, filter);
    var p := Seek(names, from, filter);
    if steps > 0 && p < |names| {
      WalkVisitsPassing(names, p + 1, filter, steps - 1);
    }
  }

  /** `metadata_iterator_init` as written leaves the old filter in place when
   *  the new name is NULL or empty: the old name is freed but not reset. */
  function InitFilterAsWritten(oldFilter: Option<string>, name: Option<string>): (f: Option<string>)
    ensures name.Some? && name.value != [] ==> f == name
    ensures (name.None? || name.value == []) ==> f == oldFilter
  {
    if name.Some? && name.value != [] then name else oldFilter
  }

  /** The filter after `metadata_iterator_init` when the freed name is reset:
   *  a NULL or empty name means no filter. */
  function InitFilter(name: Option<string>): (f: Option<string>)
    ensures f.Some? <==> name.Some? && name.value != []
    ensures f.Some? ==> f == name
  {
    if name.Some? && name.value != [] then name else None
  }

  /** With children named "a" and "b", `metadata_get(m, "a")` followed by
   *  `metadata_get(m, NULL)` should iterate over every child; as written the
   *  first `metadata_get_next` skips "b" and reports the end. */
  lemma StaleFilterSkipsChildren()
    ensures var names := [Some("a"), Some("b")];
      var stale := InitFilterAsWritten(InitFilter(Some("a")), None);
      var reset := InitFilter(None);
      Walk(names, 0, stale, 0) == 0 && Walk(names, 0, stale, 1) == 2
      && Walk(names, 0, reset, 0) == 0 && Walk(names, 0, reset, 1) == 1
  {
    var names := [Some("a"), Some("b")];
    assert Seek(names, 1, Some("a")) == 2;
  }

  // ---------------------------------------------------------------------------
  // The tree

  /** The fields of one node, as one value: what a setter leaves alone is
   *  stated as this value with one field replaced. */
  datatype NodeState = NodeState(name: Option<string>, content: Option<string>, parent: Metadata?,
                                 children: seq<Metadata>, numChildren: int, parameters: seq<Parameter>,
                                 itStarted: bool, itPos: nat, itName: Option<string>)

  class Metadata {
    var name: Option<string>
    var content: Option<string>
    var parent: Metadata?
    var children: seq<Metadata>
    var numChildren: int
    var parameters: seq<Parameter>
    /** The iterator: whether it has been started (`it.head`), its position and
     *  its name filter. */
    var itStarted: bool
    var itPos: nat
    var itName: Option<string>

    /** `metadata_new`: a node without children whose parent is `parent`, or
     *  the node itself when there is none. */
    constructor (name: Option<string>, content: Option<string>, parent: Metadata?)
      ensures this.name == name && this.content == content
      ensures this.parent == if parent == null then this else parent
      ensures children == [] && numChildren == 0 && parameters == []
      ensures !itStarted && itName.None?
    {
      this.name := name;
      this.content := content;
      children := [];
      numChildren := 0;
      parameters := [];
      itStarted := false;
      itPos := 0;
      itName := None;
      new;
      this.parent := if parent == null then this else parent;
    }

    function State(): NodeState
      reads this
    {
      NodeState(name, content, parent, children, numChildren, parameters, itStarted, itPos, itName)
    }

    /** The names of the children, in list order. */
    function ChildNames(): (names: seq<Option<string>>)
      reads this, set j | 0 <= j < |children| :: children[j]
      ensures |names| == |children|
      ensures forall j :: 0 <= j < |children| ==> names[j] == children[j].name
    {
      NamesOf(children)
    }
  }

  function NamesOf(cs: seq<Metadata>): (names: seq<Option<string>>)
    reads set j | 0 <= j < |cs| :: cs[j]
    ensures |names| == |cs|
    ensures forall j :: 0 <= j < |cs| ==> names[j] == cs[j].name
  {
    if cs == [] then [] else [cs[0].name] + NamesOf(cs[1..])
  }

  /** `metadata_name_is`: -1 without a node, 1 when its name is exactly
   *  `name`, 0 otherwise. */
  function NameIs(m: Metadata?, name: string): (r: int)
    reads m
    ensures r == -1 <==> m == null
    ensures r == 1 <==> m != null && m.name == Some(name)
    ensures r == 0 <==> m != null && m.name != Some(name)
  {
    if m == null then -1
    else if m.name.Some? && m.name.value == name then 1
    else 0
  }

  /** `metadata_set_name`: NULL for a missing node or name, which changes
   *  nothing; otherwise the name is replaced and returned. */
  method SetName(m: Metadata?, name: Option<string>) returns (r: Option<string>)
    modifies m
    ensures m == null || name.None? ==> r.None? && (m != null ==> m.name == old(m.name))
    ensures m != null && name.Some? ==> r == name && m.name == name
    ensures m != null ==> m.State().(name := old(m.name)) == old(m.State())
  {
    if m == null || name.None? {
      return None;
    }
    m.name := name;
    return name;
  }

  /** `metadata_set_content`, with the same rules as `metadata_set_name`. */
  method SetContent(m: Metadata?, content: Option<string>) returns (r: Option<string>)
    modifies m
    ensures m == null || content.None? ==> r.None? && (m != null ==> m.content == old(m.content))
    ensures m != null && content.Some? ==> r == content && m.content == content
    ensures m != null ==> m.State().(content := old(m.content)) == old(m.State())
  {
    if m == null || content.None? {
      return None;
    }
    m.content := content;
    return content;
  }

  /** `metadata_add`: -1 without both nodes; otherwise the child's parent is
   *  set, the child is added at the end of the list and the incremented count
   *  returned. */
  method Add(parent: Metadata?, child: Metadata?) returns (r: int)
    modifies parent, child
    ensures parent == null || child == null ==> r == -1
    ensures parent != null && child != null ==>
      child.parent == parent && parent.children == old(parent.children) + [child]
      && parent.numChildren == old(parent.numChildren) + 1 && r == parent.numChildren
    ensures parent != null && child != null ==>
      parent.State().(parent := old(parent.parent), children := old(parent.children),
                      numChildren := old(parent.numChildren)) == old(parent.State())
      && (child != parent ==> child.State().(parent := old(child.parent)) == old(child.State()))
  {
    if parent == null || child == null {
      return -1;
    }
    child.parent := parent;
    parent.children := parent.children + [child];
    parent.numChildren := parent.numChildren + 1;
    return parent.numChildren;
  }

  /** Removes the first occurrence of c. */
  function Detached(cs: seq<Metadata>, c: Metadata): (r: seq<Metadata>)
    ensures c in cs ==> |r| == |cs| - 1
    ensures c !in cs ==> r == cs
  {
    if cs == [] then []
    else if cs[0] == c then cs[1..]
    else [cs[0]] + Detached(cs[1..], c)
  }

  /** `metadata_detach`: -1 without both nodes; otherwise the child leaves
   *  the list that holds it and this parent's count goes down by one, which
   *  is returned. `metadata_add` links a child into the list of the node it
   *  records as its parent, so that is the list `list_detach` edits; when it
   *  is another node's list, that node loses the child while this parent's
   *  count goes down, as in the source. */
  method Detach(parent: Metadata?, child: Metadata?) returns (r: int)
    modifies parent, if child != null then {child.parent} else {}
    ensures parent == null || child == null ==> r == -1
    ensures parent != null && child != null ==>
      var holder := old(child.parent);
      (holder == parent ==>
        parent.State() == old(parent.State()).(children := Detached(old(parent.children), child),
                                               numChildren := old(parent.numChildren) - 1))
      && (holder != parent ==>
        parent.State() == old(parent.State()).(numChildren := old(parent.numChildren) - 1)
        && (holder != null ==>
              holder.State() == old(holder.State()).(children := Detached(old(holder.children), child))))
      && r == parent.numChildren
    ensures parent != null && child != null && old(child.parent) == parent && child in old(parent.children) ==>
      (old(parent.numChildren) == |old(parent.children)| ==> parent.numChildren == |parent.children|)
  {
    if parent == null || child == null {
      return -1;
    }
    var holder := child.parent;
    if holder != null {
      holder.children := Detached(holder.children, child);
    }
    parent.numChildren := parent.numChildren - 1;
    return parent.numChildren;
  }

  /** `metadata_set_parameter`: -1 without a node, name or value; 0 after
   *  overwriting a parameter of that name; 1 after appending a new one. */
  method SetParameter(m: Metadata?, name: Option<string>, value: Option<string>) returns (r: int)
    modifies m
    ensures m == null || name.None? || value.None? ==> r == -1 && (m != null ==> m.parameters == old(m.parameters))
    ensures m != null && name.Some? && value.Some? ==>
      m.parameters == Upsert(old(m.parameters), name.value, value.value)
      && r == (if FindParam(old(m.parameters), name.value).Some? then 0 else 1)
    ensures m != null ==> m.State().(parameters := old(m.parameters)) == old(m.State())
  {
    if m == null || name.None? || value.None? {
      return -1;
    }
    var found := FindParam(m.parameters, name.value);
    m.parameters := Upsert(m.parameters, name.value, value.value);
    return if found.Some? then 0 else 1;
  }

  /** `metadata_get_parameter`. */
  function GetParameter(m: Metadata?, name: Option<string>): (v: Option<string>)
    reads m
    ensures m == null || name.None? ==> v.None?
    ensures m != null && name.Some? ==> v == Lookup(m.parameters, name.value)
  {
    if m == null || name.None? then None else Lookup(m.parameters, name.value)
  }

  /** The search loop of the iterator: from `start` on, the first child
   *  whose name is the filter, or the end; with no filter, `start` itself. */
  method SeekChild(cs: seq<Metadata>, start: nat, filter: Option<string>) returns (k: nat)
    requires start <= |cs|
    ensures k == Seek(NamesOf(cs), start, filter)
  {
    ghost var names := NamesOf(cs);
    k := start;
    if filter.Some? {
      while k < |cs| && cs[k].name != filter
        invariant start <= k <= |cs|
        invariant Seek(names, k, filter) == Seek(names, start, filter)
      {
        k := k + 1;
      }
    }
  }

  /** `metadata_get`: restarts the iterator with the name filter and returns
   *  the first child that passes it (any first child when the name is NULL or
   *  empty), or NULL. */
  method Get(m: Metadata?, name: Option<string>) returns (r: Metadata?)
    modifies m
    ensures m == null ==> r == null
    ensures m != null ==>
      m.State().(itStarted := old(m.itStarted), itPos := old(m.itPos), itName := old(m.itName)) == old(m.State())
      && m.ChildNames() == old(m.ChildNames())
      && m.itStarted && m.itName == InitFilter(name)
      && m.itPos == Seek(m.ChildNames(), 0, m.itName)
      && r == (if m.itPos < |m.children| then m.children[m.itPos] else null)
  {
    if m == null {
      return null;
    }
    var cs := m.children;
    var filter := InitFilter(name);
    var k := SeekChild(cs, 0, filter);
    m.itStarted, m.itPos, m.itName := true, k, filter;
    r := if k < |cs| then cs[k] else null;
  }

  /** `metadata_get_next`: NULL when there is no node, the iterator was never
   *  started or it is at the end; otherwise the iterator moves to the next
   *  child that passes the filter and returns it, or NULL at the end. */
  method GetNext(m: Metadata?) returns (r: Metadata?)
    modifies m
    ensures m != null ==>
      m.State().(itPos := old(m.itPos)) == old(m.State()) && m.ChildNames() == old(m.ChildNames())
    ensures m == null || !m.itStarted || old(m.itPos) >= |m.children| ==>
      r == null && (m != null ==> m.itPos == old(m.itPos))
    ensures m != null && m.itStarted && old(m.itPos) < |m.children| ==>
      m.itPos == Seek(m.ChildNames(), old(m.itPos) + 1, m.itName)
      && r == (if m.itPos < |m.children| then m.children[m.itPos] else null)
  {
    if m == null || !m.itStarted || m.itPos >= |m.children| {
      return null;
    }
    var cs := m.children;
    var k := SeekChild(cs, m.itPos + 1, m.itName);
    m.itPos := k;
    r := if k < |cs| then cs[k] else null;
  }
}
