/** The stateful parts of the wikitext-to-JSON visitor: element ids, the
    text-property stack and its counter, and the entity-reference state
    machine of `visit(NodeList)`.

    The parse tree is reduced to the node kinds these parts react to. The
    Java contexts are mutable lists; here every created element is logged
    in creation order, and every `content.add` is logged as an `Add` of an
    element id to a context id, so a context's content is the ordered list
    of its `Add` entries. */
module JsonConverter {
  import opened Wrappers
  import opened Strings
  import opened PropLabels

  /** The names `textProperty` is called with. */
  datatype PropName =
    | Bold | Def | DefList | Term | Enum | EnumItem | Italics | Items | ItemsItem | Link
    | Table | TableCaption | TableCell | TableHeader | TableRow
    | Xml | XmlClose | XmlEmpty | XmlOpen | TempParameter | XmlEntRef | XmlCharRef

  function NameOf(p: PropName): (r: string)
    ensures |r| > 0 && '\n' !in r
  {
    match p
    case Bold => "bold"
    case Def => "def"
    case DefList => "defList"
    case Term => "term"
    case Enum => "enum"
    case EnumItem => "enumItem"
    case Italics => "italics"
    case Items => "items"
    case ItemsItem => "itemsItem"
    case Link => "link"
    case Table => "table"
    case TableCaption => "tableCaption"
    case TableCell => "tableCell"
    case TableHeader => "tableHeader"
    case TableRow => "tableRow"
    case Xml => "xml"
    case XmlClose => "xmlClose"
    case XmlEmpty => "xmlEmpty"
    case XmlOpen => "xmlOpen"
    case TempParameter => "tempParameter"
    case XmlEntRef => "xmlEntRef"
    case XmlCharRef => "xmlCharRef"
  }

  /** The labels pushed without a counter by the magic-word, URL and
      tag-extension visitors. */
  datatype FixedLabel = Magic | Url | TagExtension(tagName: string)

  function FixedText(f: FixedLabel): string {
    match f
    case Magic => "magic"
    case Url => "url"
    case TagExtension(t) => "tag_extension_" + t
  }

  /** - `TextNode`: a `Text` leaf; Java's `null` content is `None`.
      - `PropNode`: a node handed to `textProperty`; `present` is false
        for a `null` node, and `body` is the node list it iterates.
      - `FixedNode`: a node whose visitor pushes a fixed label around one
        text element.
      - `EntityRef`: an `XmlEntityRef` leaf. */
  datatype Node =
    | TextNode(content: Option<string>)
    | PropNode(prop: PropName, present: bool, body: seq<Node>)
    | FixedNode(fixed: FixedLabel, word: string)
    | EntityRef(entity: string)

  /** Created page elements. A `ContextPointer` is a context subclass, so it
      takes an id like any other element. */
  datatype Element =
    | TextElement(id: nat, text: string, properties: seq<string>)
    | Context(id: nat, name: string)
    | Pointer(id: nat, name: string, target: nat)

  /** `content.add(elem)` on the context with id `ctx`. */
  datatype Add = Add(ctx: nat, elem: nat)

  /** The visitor's state: `curTextProperties` (bottom first),
      `textPropNumber`, `PageElement.S_ID`, the created elements, the id of
      `curContext`, and the content additions. */
  datatype State = State(props: seq<string>, propNumber: nat, nextId: nat,
                         created: seq<Element>, cur: nat, adds: seq<Add>)

  /** Element ids are `1, 2, 3, …` in creation order, and `S_ID` is next. */
  predicate WellNumbered(s: State) {
    s.nextId == |s.created| + 1 && forall j :: 0 <= j < |s.created| ==> s.created[j].id == j + 1
  }

  /** `r` only adds to `s`: earlier elements and additions are kept, and
      each new element takes the next id. */
  predicate Grows(s: State, r: State) {
    |s.created| <= |r.created| && r.created[..|s.created|] == s.created
    && r.nextId == s.nextId + (|r.created| - |s.created|)
    && (forall j :: |s.created| <= j < |r.created| ==> r.created[j].id == s.nextId + (j - |s.created|))
    && |s.adds| <= |r.adds| && r.adds[..|s.adds|] == s.adds
  }

  /** Every text element created between `s` and `r` carries the stack of
      `s` at the bottom of its properties. */
  predicate Snapshots(s: State, r: State)
    requires |s.created| <= |r.created|
  {
    forall j :: |s.created| <= j < |r.created| && r.created[j].TextElement? ==>
      |s.props| <= |r.created[j].properties| && r.created[j].properties[..|s.props|] == s.props
  }

  lemma GrowsTrans(a: State, b: State, c: State)
    requires Grows(a, b) && Grows(b, c)
    ensures Grows(a, c)
  {
    assert c.created[..|a.created|] == c.created[..|b.created|][..|a.created|];
    assert c.adds[..|a.adds|] == c.adds[..|b.adds|][..|a.adds|];
    forall j | |b.created| <= j < |c.created|
      ensures c.created[j].id == a.nextId + (j - |a.created|)
    {
    }
    forall j | |a.created| <= j < |b.created|
      ensures c.created[j].id == a.nextId + (j - |a.created|)
    {
      assert c.created[j] == c.created[..|b.created|][j];
    }
  }

  /** Snapshots compose when the stack is the same at the seam. */
  lemma SnapshotsTrans(a: State, b: State, c: State)
    requires Grows(a, b) && Grows(b, c)
    requires Snapshots(a, b) && Snapshots(b, c)
    requires |a.props| <= |b.props| && b.props[..|a.props|] == a.props
    ensures Grows(a, c) && Snapshots(a, c)
  {
    GrowsTrans(a, b, c);
    forall j | |a.created| <= j < |c.created| && c.created[j].TextElement?
      ensures |a.props| <= |c.created[j].properties|
      ensures c.created[j].properties[..|a.props|] == a.props
    {
      var p := c.created[j].properties;
      if j < |b.created| {
        assert c.created[j] == c.created[..|b.created|][j];
      } else {
        assert p[..|a.props|] == p[..|b.props|][..|a.props|];
      }
    }
  }

  /** `new TextElement(text)` added to the current context. */
  function AddText(s: State, text: string): (r: State)
    ensures Grows(s, r) && Snapshots(s, r)
    ensures |r.created| == |s.created| + 1 && r.created[|s.created|] == TextElement(s.nextId, text, s.props)
    ensures r.adds == s.adds + [Add(s.cur, s.nextId)]
    ensures r.props == s.props && r.cur == s.cur && r.propNumber == s.propNumber
  {
    var e := TextElement(s.nextId, text, s.props);
    s.(nextId := s.nextId + 1, created := s.created + [e], adds := s.adds + [Add(s.cur, e.id)])
  }

  /** `new Context(name)`, not added anywhere. */
  function NewContext(s: State, name: string): (r: State)
    ensures Grows(s, r) && Snapshots(s, r)
    ensures |r.created| == |s.created| + 1 && r.created[|s.created|] == Context(s.nextId, name)
    ensures r.adds == s.adds && r.props == s.props && r.cur == s.cur && r.propNumber == s.propNumber
  {
    s.(nextId := s.nextId + 1, created := s.created + [Context(s.nextId, name)])
  }

  /** The number of entity references directly in a node list. */
  function EntityCount(xs: seq<Node>): nat {
    if |xs| == 0 then 0 else EntityCount(xs[..|xs| - 1]) + (if xs[|xs| - 1].EntityRef? then 1 else 0)
  }

  /** The name of the last entity reference directly in a node list. */
  function LastEntity(xs: seq<Node>): Option<string> {
    if |xs| == 0 then None
    else if xs[|xs| - 1].EntityRef? then Some(xs[|xs| - 1].entity)
    else LastEntity(xs[..|xs| - 1])
  }

  /** The context with id `id` exists and carries `name`. */
  predicate IsContext(s: State, id: nat, name: string) {
    1 <= id <= |s.created| && s.created[id - 1] == Context(id, name)
  }

  /** One step of the entity-reference counter `inXmlRefCt`:
      on 1 and 3 a `JUNK` context takes the content; on 2 a `ref_<name>`
      context does, is added to the page's refs, and a pointer to it is
      added to the context the list started in; on 0 that context is
      current again. */
  function EntityStep(s: State, count: nat, stored: nat, entity: string, refs: nat)
    : (r: (State, nat))
    requires count < 4
    ensures r.1 < 4 && r.1 == (count + 1) % 4
    ensures Grows(s, r.0) && Snapshots(s, r.0)
    ensures r.0.props == s.props && r.0.propNumber == s.propNumber
    ensures r.1 == 0 ==> r.0.cur == stored && r.0.created == s.created && r.0.adds == s.adds
    ensures r.1 == 1 || r.1 == 3 ==>
              r.0.cur == s.nextId && r.0.created == s.created + [Context(s.nextId, "JUNK")]
              && r.0.adds == s.adds
    ensures r.1 == 2 ==>
              r.0.cur == s.nextId
              && r.0.created == s.created + [Context(s.nextId, "ref_" + entity),
                                             Pointer(s.nextId + 1, "__pointer" + ("ref_" + entity), s.nextId)]
              && r.0.adds == s.adds + [Add(stored, s.nextId + 1), Add(refs, s.nextId)]
  {
    var c := (count + 1) % 4;
    if c == 1 || c == 3 then
      var s1 := NewContext(s, "JUNK");
      (s1.(cur := s.nextId), c)
    else if c == 2 then
      var ref := Context(s.nextId, "ref_" + entity);
      var ptr := Pointer(s.nextId + 1, "__pointer" + ref.name, ref.id);
      var r := s.(nextId := s.nextId + 2, created := s.created + [ref, ptr], cur := ref.id,
                  adds := s.adds + [Add(stored, ptr.id), Add(refs, ref.id)]);
      assert r.created[..|s.created|] == s.created;
      assert r.adds[..|s.adds|] == s.adds;
      (r, c)
    else
      (s.(cur := stored), c)
  }

  /** The counter values a node consumes: one per non-null `textProperty`
      call, entity references included. */
  function PropCount(n: Node): nat
    decreases n
  {
    match n
    case PropNode(_, present, body) => if present then 1 + PropCountList(body) else 0
    case EntityRef(_) => 1
    case _ => 0
  }

  function PropCountList(xs: seq<Node>): nat
    decreases xs
  {
    if |xs| == 0 then 0 else PropCountList(xs[..|xs| - 1]) + PropCount(xs[|xs| - 1])
  }

  /** `dispatch(n)`. */
  function VisitNode(n: Node, s: State, refs: nat): (r: State)
    ensures r.props == s.props && r.cur == s.cur
    ensures r.propNumber == s.propNumber + PropCount(n)
    ensures Grows(s, r) && Snapshots(s, r)
    decreases n
  {
    match n
    case TextNode(c) => AddText(s, if c.Some? then c.value else "")
    case PropNode(p, present, body) =>
      if !present then s
      else
        var s1 := s.(propNumber := s.propNumber + 1, props := s.props + [FormatLabel(NameOf(p), s.propNumber)]);
        var s2 := VisitList(body, s1, refs);
        assert s1.props[..|s.props|] == s.props;
        SnapshotsTrans(s, s1, s2);
        s2.(props := s2.props[..|s2.props| - 1])
    case FixedNode(f, word) =>
      var s1 := s.(props := s.props + [FixedText(f)]);
      var s2 := AddText(s1, word);
      assert s2.created[|s.created|].properties[..|s.props|] == s.props;
      s2.(props := s2.props[..|s2.props| - 1])
    case EntityRef(_) =>
      // `textProperty("xmlEntRef", node)` on a leaf: the push and pop cancel
      s.(propNumber := s.propNumber + 1)
  }

  /** The state of `visit(NodeList)` after its first `i` children, and the
      entity-reference counter at that point. */
  function Prefix(children: seq<Node>, i: nat, s: State, refs: nat): (r: (State, nat))
    requires i <= |children|
    ensures r.1 < 4
    ensures r.0.props == s.props
    ensures r.0.propNumber == s.propNumber + PropCountList(children[..i])
    ensures Grows(s, r.0) && Snapshots(s, r.0)
    decreases children, 1, i
  {
    if i == 0 then (s, 0)
    else
      var (p, count) := Prefix(children, i - 1, s, refs);
      var child := children[i - 1];
      var (q, c) := if child.EntityRef? then EntityStep(p, count, s.cur, child.entity, refs) else (p, count);
      var r := VisitNode(child, q, refs);
      assert children[..i][..i - 1] == children[..i - 1];
      SnapshotsTrans(s, p, q);
      SnapshotsTrans(s, q, r);
      (r, c)
  }

  /** `visit(NodeList)`: the children in order, then a `"\n"` text in the
      current context if the counter stopped mid-cycle, then the context
      the list started in is current again. */
  function VisitList(children: seq<Node>, s: State, refs: nat): (r: State)
    ensures r.props == s.props && r.cur == s.cur
    ensures r.propNumber == s.propNumber + PropCountList(children)
    ensures Grows(s, r) && Snapshots(s, r)
    decreases children, 2
  {
    var (p, count) := Prefix(children, |children|, s, refs);
    assert children[..|children|] == children;
    var q := if count != 0 then var t := AddText(p, "\n"); SnapshotsTrans(s, p, t); t else p;
    q.(cur := s.cur)
  }

  /** `before()`: ids restart at 1 with the refs context, the page root
      and its `__root` child, which becomes current; no properties, and
      the counter of a fresh visitor starts at 1. */
  function Initial(): (s: State)
    ensures WellNumbered(s) && IsContext(s, RefsId, "refs") && IsContext(s, s.cur, "__root")
  {
    State([], 1, 4, [Context(1, "refs"), Context(2, "page"), Context(3, "__root")], 3, [Add(2, 3)])
  }

  const RefsId: nat := 1

  /** Counting from the front agrees with counting from the back. */
  lemma {:induction false} PropCountListCons(xs: seq<Node>)
    requires |xs| > 0
    ensures PropCountList(xs) == PropCount(xs[0]) + PropCountList(xs[1..])
    decreases |xs|
  {
    if |xs| > 1 {
      var init := xs[..|xs| - 1];
      PropCountListCons(init);
      assert init[1..] == xs[1..][..|xs| - 2] && xs[1..][|xs| - 2] == xs[|xs| - 1];
    } else {
      assert xs[..0] == [] && xs[1..] == [];
    }
  }

  /** `iterate(node)`: each child is dispatched in turn, with no
      entity-reference counter and no trailing text. */
  function VisitAll(children: seq<Node>, s: State, refs: nat): (r: State)
    ensures r.props == s.props && r.cur == s.cur
    ensures r.propNumber == s.propNumber + PropCountList(children)
    decreases |children|
  {
    if |children| == 0 then s
    else
      var r := VisitAll(children[1..], VisitNode(children[0], s, refs), refs);
      PropCountListCons(children);
      r
  }

  /** Iterating only adds elements and content, and every text it creates
      carries the properties in force when it started. */
  lemma {:induction false} VisitAllGrows(children: seq<Node>, s: State, refs: nat)
    ensures Grows(s, VisitAll(children, s, refs)) && Snapshots(s, VisitAll(children, s, refs))
    decreases |children|
  {
    if |children| > 0 {
      var p := VisitNode(children[0], s, refs);
      VisitAllGrows(children[1..], p, refs);
      var r := VisitAll(children[1..], p, refs);
      SnapshotsTrans(s, p, r);
      GrowsTrans(s, p, r);
    } else {
      assert s.created[..|s.created|] == s.created && s.adds[..|s.adds|] == s.adds;
    }
  }

  /** Iterating `xs + ys` is iterating `xs`, then `ys` from where `xs`
      left the visitor. */
  lemma {:induction false} VisitAllAppend(xs: seq<Node>, ys: seq<Node>, s: State, refs: nat)
    ensures VisitAll(xs + ys, s, refs) == VisitAll(ys, VisitAll(xs, s, refs), refs)
    decreases |xs|
  {
    if |xs| == 0 {
      assert xs + ys == ys;
    } else {
      ConsAppendTail(xs, ys);
      VisitAllAppend(xs[1..], ys, VisitNode(xs[0], s, refs), refs);
    }
  }

  /** A whole conversion: `visit(Page)` iterates the page's top-level
      nodes, each dispatched on its own. */
  function Convert(children: seq<Node>): (r: State)
    ensures WellNumbered(r)
    ensures r.props == [] && r.cur == Initial().cur
    ensures r.propNumber == 1 + PropCountList(children)
  {
    var r := VisitAll(children, Initial(), RefsId);
    VisitAllGrows(children, Initial(), RefsId);
    GrowsNumbered(Initial(), r);
    r
  }

  /** At the top level an entity reference opens no context: it only
      consumes a property number, unlike inside a node list. */
  lemma TopLevelEntityOpensNothing(name: string)
    ensures Convert([EntityRef(name)]).created == Initial().created
    ensures VisitList([EntityRef(name)], Initial(), RefsId).created
            == Initial().created + [Context(4, "JUNK"), TextElement(5, "\n", [])]
  {
    var xs := [EntityRef(name)];
    assert xs[..0] == [];
    assert VisitAll(xs, Initial(), RefsId) == VisitAll([], VisitNode(EntityRef(name), Initial(), RefsId), RefsId);
    assert Prefix(xs, 1, Initial(), RefsId).0.created == Initial().created + [Context(4, "JUNK")];
  }

  /** Growth keeps the ids consecutive from 1. */
  lemma GrowsNumbered(s: State, r: State)
    requires WellNumbered(s) && Grows(s, r)
    ensures WellNumbered(r)
  {
    forall j | 0 <= j < |r.created| ensures r.created[j].id == j + 1 {
      if j < |s.created| {
        assert r.created[j] == r.created[..|s.created|][j];
      }
    }
  }

  /** The entity-reference state machine after the children `xs`: the
      counter is the number of entity references so far, modulo 4; on 0 the
      list's own context is current, on 1 and 3 a fresh `JUNK` context is,
      and on 2 the `ref_<name>` context of the last entity reference is. */
  predicate CycleState(p: State, count: nat, s: State, xs: seq<Node>) {
    WellNumbered(p)
    && count == EntityCount(xs) % 4
    && (count == 0 ==> p.cur == s.cur)
    && (count != 0 ==> s.nextId <= p.cur)
    && (count == 1 || count == 3 ==> IsContext(p, p.cur, "JUNK"))
    && (count == 2 ==> LastEntity(xs).Some? && IsContext(p, p.cur, "ref_" + LastEntity(xs).value))
  }

  lemma IsContextGrows(a: State, b: State, id: nat, name: string)
    requires Grows(a, b) && IsContext(a, id, name)
    ensures IsContext(b, id, name)
  {
    assert b.created[id - 1] == b.created[..|a.created|][id - 1];
  }

  /** A child other than an entity reference leaves the machine alone. */
  lemma CycleOther(p: State, count: nat, s: State, xs: seq<Node>, child: Node, refs: nat)
    requires !child.EntityRef? && CycleState(p, count, s, xs)
    ensures CycleState(VisitNode(child, p, refs), count, s, xs + [child])
  {
    var r := VisitNode(child, p, refs);
    GrowsNumbered(p, r);
    SnocPrefix(xs, child);
    if count == 1 || count == 3 {
      IsContextGrows(p, r, p.cur, "JUNK");
    } else if count == 2 {
      IsContextGrows(p, r, p.cur, "ref_" + LastEntity(xs).value);
    }
  }

  /** An entity reference advances the machine by one. */
  lemma CycleEntity(p: State, count: nat, s: State, xs: seq<Node>, name: string, refs: nat)
    requires count < 4 && CycleState(p, count, s, xs) && s.nextId <= p.nextId
    ensures var (q, c) := EntityStep(p, count, s.cur, name, refs);
            CycleState(VisitNode(EntityRef(name), q, refs), c, s, xs + [EntityRef(name)])
  {
    var (q, c) := EntityStep(p, count, s.cur, name, refs);
    GrowsNumbered(p, q);
    SnocPrefix(xs, EntityRef(name));
  }

  lemma PrefixStep(children: seq<Node>, i: nat, s: State, refs: nat)
    requires 0 < i <= |children|
    ensures var (p, count) := Prefix(children, i - 1, s, refs);
            var child := children[i - 1];
            var (q, c) := if child.EntityRef? then EntityStep(p, count, s.cur, child.entity, refs) else (p, count);
            Prefix(children, i, s, refs) == (VisitNode(child, q, refs), c)
  {
  }

  lemma {:induction false} EntityCycle(children: seq<Node>, i: nat, s: State, refs: nat)
    requires i <= |children|
    requires WellNumbered(s)
    ensures var (p, count) := Prefix(children, i, s, refs);
            CycleState(p, count, s, children[..i]) && s.nextId <= p.nextId
  {
    if i > 0 {
      EntityCycle(children, i - 1, s, refs);
      var (p0, count0) := Prefix(children, i - 1, s, refs);
      var child := children[i - 1];
      var (q, c) := if child.EntityRef? then EntityStep(p0, count0, s.cur, child.entity, refs) else (p0, count0);
      var r := VisitNode(child, q, refs);
      assert Prefix(children, i, s, refs) == (r, c) by {
        PrefixStep(children, i, s, refs);
      }
      assert CycleState(r, c, s, children[..i]) && s.nextId <= r.nextId by {
        SnocSlice(children, i);
        CycleStep(p0, count0, s, children[..i - 1], child, refs);
      }
    }
  }

  lemma SnocPrefix<T>(xs: seq<T>, x: T)
    ensures (xs + [x])[..|xs|] == xs
  {
  }

  lemma SnocSlice<T>(xs: seq<T>, i: nat)
    requires 0 < i <= |xs|
    ensures xs[..i] == xs[..i - 1] + [xs[i - 1]]
  {
  }

  /** One child of the list, whatever its kind, keeps the machine's
      description true. */
  lemma CycleStep(p: State, count: nat, s: State, xs: seq<Node>, child: Node, refs: nat)
    requires count < 4 && CycleState(p, count, s, xs) && s.nextId <= p.nextId
    ensures var (q, c) := if child.EntityRef? then EntityStep(p, count, s.cur, child.entity, refs) else (p, count);
            CycleState(VisitNode(child, q, refs), c, s, xs + [child])
            && s.nextId <= VisitNode(child, q, refs).nextId
  {
    var (q, c) := if child.EntityRef? then EntityStep(p, count, s.cur, child.entity, refs) else (p, count);
    GrowsNumbered(p, q);
    if child.EntityRef? {
      CycleEntity(p, count, s, xs, child.entity, refs);
    } else {
      CycleOther(p, count, s, xs, child, refs);
    }
    GrowsNumbered(q, VisitNode(child, q, refs));
  }

  /** After a node list the context it started in is current again. If the
      entity references did not complete their cycle, the last element
      created is a `"\n"` text, and it went to the detour context (a
      `JUNK` or `ref_` context), not to the list's own context. */
  lemma NodeListEnd(children: seq<Node>, s: State, refs: nat)
    requires WellNumbered(s) && s.cur < s.nextId
    ensures var r := VisitList(children, s, refs);
            var (p, count) := Prefix(children, |children|, s, refs);
            r.cur == s.cur
            && (EntityCount(children) % 4 == 0 ==> r == p)
            && (EntityCount(children) % 4 != 0 ==>
                  r.created == p.created + [TextElement(p.nextId, "\n", s.props)]
                  && r.adds == p.adds + [Add(p.cur, p.nextId)]
                  && p.cur != s.cur
                  && (IsContext(p, p.cur, "JUNK")
                      || (LastEntity(children).Some? && IsContext(p, p.cur, "ref_" + LastEntity(children).value))))
  {
    EntityCycle(children, |children|, s, refs);
    assert children[..|children|] == children;
  }

  /** `textProperty` on a `null` node changes nothing. */
  lemma NullPropertyIsNoOp(p: PropName, body: seq<Node>, s: State, refs: nat)
    ensures VisitNode(PropNode(p, false, body), s, refs) == s
  {
  }

  /** Every text element created under a non-null `textProperty` node carries
      that node's label `"<name>(<n>)"`, with `n` the counter on entry, right
      above the labels of the enclosing nodes. */
  lemma PropertyOnEveryText(p: PropName, body: seq<Node>, s: State, refs: nat)
    ensures var r := VisitNode(PropNode(p, true, body), s, refs);
            r.propNumber == s.propNumber + 1 + PropCountList(body)
            && forall j :: |s.created| <= j < |r.created| && r.created[j].TextElement? ==>
                 |s.props| < |r.created[j].properties|
                 && r.created[j].properties[..|s.props|] == s.props
                 && r.created[j].properties[|s.props|] == FormatLabel(NameOf(p), s.propNumber)
  {
    var s1 := s.(propNumber := s.propNumber + 1, props := s.props + [FormatLabel(NameOf(p), s.propNumber)]);
    var s2 := VisitList(body, s1, refs);
    var r := VisitNode(PropNode(p, true, body), s, refs);
    assert r.created == s2.created;
    forall j | |s.created| <= j < |r.created| && r.created[j].TextElement?
      ensures |s.props| < |r.created[j].properties|
      ensures r.created[j].properties[..|s.props|] == s.props
      ensures r.created[j].properties[|s.props|] == FormatLabel(NameOf(p), s.propNumber)
    {
      var q := r.created[j].properties;
      assert q[..|s1.props|] == s1.props;
      assert q[|s.props|] == q[..|s1.props|][|s.props|];
      assert q[..|s.props|] == q[..|s1.props|][..|s.props|];
    }
  }

  /** Numbered labels with different counter values differ, whatever their
      names, so the labels of one conversion are pairwise distinct. */
  lemma NumberedLabelsDistinct(a: PropName, b: PropName, m: nat, n: nat)
    requires m != n
    ensures FormatLabel(NameOf(a), m) != FormatLabel(NameOf(b), n)
  {
    ParseFormatRoundTrip(NameOf(a), m);
    ParseFormatRoundTrip(NameOf(b), n);
  }

  const NBSP: string := "&nbsp;"

  /** `cleanedWikitext`: `wikitext.replaceAll("&nbsp;", " ")`, a left to
      right scan that replaces each non-overlapping occurrence by one
      space. */
  function CleanedWikitext(s: string): (r: string)
    ensures |r| <= |s|
    decreases |s|
  {
    if |s| == 0 then ""
    else if OccursAt(s, NBSP, 0) then " " + CleanedWikitext(s[6..])
    else [s[0]] + CleanedWikitext(s[1..])
  }

  /** Up to the first space of the output, nothing was replaced. */
  lemma {:induction false} CleanedPrefix(s: string, k: nat)
    requires k <= |CleanedWikitext(s)|
    requires ' ' !in CleanedWikitext(s)[..k]
    ensures k <= |s| && s[..k] == CleanedWikitext(s)[..k]
    decreases |s|
  {
    var r := CleanedWikitext(s);
    if k > 0 {
      assert r[..k][0] == r[0];
      if !OccursAt(s, NBSP, 0) {
        var t := CleanedWikitext(s[1..]);
        assert r == [s[0]] + t;
        assert t[..k - 1] == r[..k][1..];
        CleanedPrefix(s[1..], k - 1);
        assert s[..k] == [s[0]] + s[1..][..k - 1];
      }
    }
  }

  /** The cleaned text contains no `&nbsp;`. */
  lemma {:induction false} CleanedHasNoNbsp(s: string)
    ensures forall i: nat :: !OccursAt(CleanedWikitext(s), NBSP, i)
    decreases |s|
  {
    var r := CleanedWikitext(s);
    if |s| > 0 {
      var t := if OccursAt(s, NBSP, 0) then CleanedWikitext(s[6..]) else CleanedWikitext(s[1..]);
      if OccursAt(s, NBSP, 0) {
        CleanedHasNoNbsp(s[6..]);
      } else {
        CleanedHasNoNbsp(s[1..]);
      }
      assert r[1..] == t;
      forall i: nat ensures !OccursAt(r, NBSP, i) {
        if i > 0 {
          OccursAtTail(r, NBSP, i - 1);
        } else if !OccursAt(s, NBSP, 0) && OccursAt(r, NBSP, 0) {
          assert r[1..6] == "nbsp;";
          assert t[..5] == r[1..6];
          CleanedPrefix(s[1..], 5);
        }
      }
    }
  }

  /** An occurrence makes the text strictly shorter. */
  lemma {:induction false} CleanedShrinks(s: string, i: nat)
    requires OccursAt(s, NBSP, i)
    ensures |CleanedWikitext(s)| < |s|
    decreases |s|
  {
    if !OccursAt(s, NBSP, 0) {
      OccursAtTail(s, NBSP, i - 1);
      CleanedShrinks(s[1..], i - 1);
    }
  }

  /** Text without `&nbsp;` is returned unchanged. */
  lemma {:induction false} CleanedKeepsPlain(s: string)
    requires forall i: nat :: !OccursAt(s, NBSP, i)
    ensures CleanedWikitext(s) == s
    decreases |s|
  {
    if |s| > 0 {
      forall i: nat ensures !OccursAt(s[1..], NBSP, i) {
        OccursAtTail(s, NBSP, i);
      }
      CleanedKeepsPlain(s[1..]);
      assert s == [s[0]] + s[1..];
    }
  }

  /** Cleaning changes the text exactly when it contains `&nbsp;`. */
  lemma CleanedUnchangedIff(s: string)
    ensures CleanedWikitext(s) == s <==> forall i: nat :: !OccursAt(s, NBSP, i)
  {
    if forall i: nat :: !OccursAt(s, NBSP, i) {
      CleanedKeepsPlain(s);
    } else {
      var i: nat :| OccursAt(s, NBSP, i);
      CleanedShrinks(s, i);
    }
  }
}
