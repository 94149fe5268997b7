/** The packaged page loader: turning the converter's JSON tree into page
    element objects, registering every element by id, resolving pointers,
    and following redirections.

    Objects are kept in construction order in `Store.objs`; a Python object
    reference is an index into that sequence. `all_elements` is the map
    `registry` from JSON id to object index together with `order`, the
    order in which the ids were first inserted (a Python dict keeps the
    position of a key when its value is replaced). */
module PageObjects {
  import opened Wrappers
  import opened PropLabels

  /** The classes of `type_mapping`. */
  datatype Cls = ContextCls | TextCls | InternalLinkCls | ExternalLinkCls | HeadingCls
               | SectionCls | ImageCls | TemplateCls | TemplateArgCls | RedirectionCls

  /** `type_mapping[p_type]`; `None` is a `KeyError`. The `pointer` entry
      is never looked up, since `construct` handles pointers first. */
  function TypeMapping(kind: string): (r: Option<Cls>)
    ensures r == Some(TextCls) <==> kind == "text"
    ensures r == Some(RedirectionCls) <==> kind == "redirection"
  {
    if kind == "context" then Some(ContextCls)
    else if kind == "text" then Some(TextCls)
    else if kind == "internal_link" then Some(InternalLinkCls)
    else if kind == "external_link" then Some(ExternalLinkCls)
    else if kind == "heading" then Some(HeadingCls)
    else if kind == "section" then Some(SectionCls)
    else if kind == "image" then Some(ImageCls)
    else if kind == "template" then Some(TemplateCls)
    else if kind == "template_arg" then Some(TemplateArgCls)
    else if kind == "redirection" then Some(RedirectionCls)
    else None
  }

  /** Text and redirection elements are not contexts: they read no
      children. */
  predicate IsContextCls(c: Cls) {
    c != TextCls && c != RedirectionCls
  }

  /** The sub-elements a class constructs after its children, in
      constructor order: a link's default text; a section's title and
      body; the title of an image or template; a template argument's name
      and value. */
  function PartCount(c: Cls): nat {
    match c
    case InternalLinkCls => 1
    case ExternalLinkCls => 1
    case SectionCls => 2
    case ImageCls => 1
    case TemplateCls => 1
    case TemplateArgCls => 2
    case _ => 0
  }

  /** One JSON element. `ref` is a pointer's target id; `target` is a
      redirection's target title. */
  datatype JNode = JNode(id: int, kind: string, hasChildren: bool, children: seq<JNode>,
                         parts: seq<JNode>, text: string, properties: seq<string>,
                         ref: int, target: string)

  datatype Obj = Obj(id: int, cls: Cls, parent: Option<nat>, content: seq<nat>, parts: seq<nat>,
                     text: string, props: seq<Prop>, target: string)

  datatype Store = Store(objs: seq<Obj>, registry: map<int, nat>, order: seq<int>)

  const Empty: Store := Store([], map[], [])

  /** A parent is constructed before its children. */
  predicate ParentsFirst(objs: seq<Obj>) {
    forall k :: 0 <= k < |objs| && objs[k].parent.Some? ==> objs[k].parent.value < k
  }

  /** Every constructed element is registered, and an id maps to the last
      element constructed with it. */
  predicate LastWins(st: Store) {
    (forall id :: id in st.registry ==> st.registry[id] < |st.objs| && st.objs[st.registry[id]].id == id)
    && (forall id, k :: id in st.registry && st.registry[id] < k < |st.objs| ==> st.objs[k].id != id)
    && (forall k :: 0 <= k < |st.objs| ==> st.objs[k].id in st.registry)
  }

  /** The dict's key order lists each registered id once. */
  predicate OrderOk(st: Store) {
    (forall i, j :: 0 <= i < j < |st.order| ==> st.order[i] != st.order[j])
    && (forall id :: id in st.order ==> id in st.registry)
    && (forall id :: id in st.registry ==> id in st.order)
  }

  predicate Inv(st: Store) {
    ParentsFirst(st.objs) && LastWins(st) && OrderOk(st)
  }

  /** `r` keeps every object and key position of `st`. */
  predicate Extends(st: Store, r: Store) {
    |st.objs| <= |r.objs| && r.objs[..|st.objs|] == st.objs
    && |st.order| <= |r.order| && r.order[..|st.order|] == st.order
  }

  lemma ExtendsTrans(a: Store, b: Store, c: Store)
    requires Extends(a, b) && Extends(b, c)
    ensures Extends(a, c)
  {
    assert c.objs[..|a.objs|] == c.objs[..|b.objs|][..|a.objs|];
    assert c.order[..|a.order|] == c.order[..|b.order|][..|a.order|];
  }

  /** `PageElement.__init__`: `page.all_elements[id] = self`. */
  function Register(st: Store, obj: Obj): (r: Store)
    requires Inv(st)
    requires obj.parent.Some? ==> obj.parent.value < |st.objs|
    ensures Inv(r) && Extends(st, r)
    ensures r.objs == st.objs + [obj] && r.registry == st.registry[obj.id := |st.objs|]
  {
    var r := Store(st.objs + [obj], st.registry[obj.id := |st.objs|],
                   if obj.id in st.registry then st.order else st.order + [obj.id]);
    RegisterParents(st.objs, obj);
    RegisterLastWins(st, obj, r);
    RegisterOrder(st, obj, r);
    assert r.objs[..|st.objs|] == st.objs;
    assert r.order[..|st.order|] == st.order;
    r
  }

  lemma RegisterParents(objs: seq<Obj>, obj: Obj)
    requires ParentsFirst(objs)
    requires obj.parent.Some? ==> obj.parent.value < |objs|
    ensures ParentsFirst(objs + [obj])
  {
    assert forall k :: 0 <= k < |objs| ==> (objs + [obj])[k] == objs[k];
  }

  lemma RegisterLastWins(st: Store, obj: Obj, r: Store)
    requires LastWins(st)
    requires r.objs == st.objs + [obj] && r.registry == st.registry[obj.id := |st.objs|]
    ensures LastWins(r)
  {
    assert forall k :: 0 <= k < |st.objs| ==> r.objs[k] == st.objs[k];
  }

  lemma RegisterOrder(st: Store, obj: Obj, r: Store)
    requires OrderOk(st)
    requires r.registry == st.registry[obj.id := |st.objs|]
    requires r.order == if obj.id in st.registry then st.order else st.order + [obj.id]
    ensures OrderOk(r)
  {
  }

  /** Filling in the children of the object at `idx` keeps the invariant. */
  function SetContent(st: Store, idx: nat, content: seq<nat>, parts: seq<nat>): (r: Store)
    requires Inv(st) && idx < |st.objs|
    ensures Inv(r) && r.registry == st.registry && r.order == st.order && |r.objs| == |st.objs|
    ensures r.objs[..idx] == st.objs[..idx]
    ensures forall k :: 0 <= k < |r.objs| ==>
              r.objs[k].id == st.objs[k].id && r.objs[k].cls == st.objs[k].cls && r.objs[k].parent == st.objs[k].parent
    ensures r.objs[idx].content == content && r.objs[idx].parts == parts
  {
    st.(objs := st.objs[idx := st.objs[idx].(content := content, parts := parts)])
  }

  /** The classes whose packaged constructors read a subclass-private
      `self.__content` that was never set, and so raise `AttributeError`. */
  predicate Mangles(c: Cls) {
    c == InternalLinkCls || c == ExternalLinkCls || c == SectionCls
  }

  /** `construct(page, cur_section, parent, json_data)`. On success, the
      result is the store after construction and the index of the
      element; a pointer resolves to the element already registered under
      its target id. When `mangled` holds, links and sections fail as the
      packaged classes do. */
  function Construct(st: Store, parent: Option<nat>, j: JNode, mangled: bool)
    : (r: Result<(Store, nat)>)
    requires Inv(st)
    requires parent.Some? ==> parent.value < |st.objs|
    ensures r.Success? ==> Inv(r.value.0) && Extends(st, r.value.0) && r.value.1 < |r.value.0.objs|
    ensures j.kind == "pointer" ==> (r.Success? <==> j.ref in st.registry)
    ensures j.kind == "pointer" && r.Success? ==> r.value == (st, st.registry[j.ref])
    ensures j.kind != "pointer" && TypeMapping(j.kind).None? ==> r.Failure?
    ensures j.kind != "pointer" && r.Success? ==>
              r.value.1 == |st.objs| && r.value.0.objs[|st.objs|].id == j.id
              && Some(r.value.0.objs[|st.objs|].cls) == TypeMapping(j.kind)
              && r.value.0.objs[|st.objs|].parent == parent
    ensures mangled && j.kind != "pointer" && TypeMapping(j.kind).Some? && Mangles(TypeMapping(j.kind).value) ==>
              r.Failure?
    decreases j, 3
  {
    if j.kind == "pointer" then
      if j.ref in st.registry then Success((st, st.registry[j.ref])) else Failure("KeyError")
    else
      match TypeMapping(j.kind)
      case None => Failure("KeyError")
      case Some(cls) => Make(st, parent, j, cls, mangled)
  }

  /** A constructor of class `cls`: registration first, then the rest. */
  function Make(st: Store, parent: Option<nat>, j: JNode, cls: Cls, mangled: bool)
    : (r: Result<(Store, nat)>)
    requires Inv(st)
    requires parent.Some? ==> parent.value < |st.objs|
    ensures r.Success? ==> Inv(r.value.0) && Extends(st, r.value.0) && r.value.1 == |st.objs| < |r.value.0.objs|
    ensures r.Success? ==> r.value.0.objs[|st.objs|].id == j.id && r.value.0.objs[|st.objs|].cls == cls
                           && r.value.0.objs[|st.objs|].parent == parent
    ensures mangled && Mangles(cls) ==> r.Failure?
    decreases j, 2
  {
    var props := if cls == TextCls || cls == RedirectionCls then ParseAll(j.properties) else [];
    var st1 := Register(st, Obj(j.id, cls, parent, [], [], j.text, props, j.target));
    var r :- Build(st1, |st.objs|, cls, j, mangled);
    BuildExtends(st, st1, r);
    Success((r, |st.objs|))
  }

  /** Filling in the element registered last keeps everything before it. */
  lemma BuildExtends(st: Store, st1: Store, r: Store)
    requires Extends(st, st1) && |st1.objs| == |st.objs| + 1 && |st1.objs| <= |r.objs|
    requires forall k :: 0 <= k < |st1.objs| && k != |st.objs| ==> r.objs[k] == st1.objs[k]
    requires |st1.order| <= |r.order| && r.order[..|st1.order|] == st1.order
    ensures Extends(st, r)
  {
    assert forall k :: 0 <= k < |st.objs| ==> st1.objs[k] == st1.objs[..|st.objs|][k];
    assert r.objs[..|st.objs|] == st.objs;
    assert r.order[..|st.order|] == r.order[..|st1.order|][..|st.order|];
  }

  /** The rest of a constructor once the element at `idx` is registered:
      the children of a context, then the class's named parts. */
  function Build(st: Store, idx: nat, cls: Cls, j: JNode, mangled: bool): (r: Result<Store>)
    requires Inv(st) && idx < |st.objs|
    ensures r.Success? ==> Inv(r.value) && |st.objs| <= |r.value.objs|
    ensures r.Success? ==> |st.order| <= |r.value.order| && r.value.order[..|st.order|] == st.order
    ensures r.Success? ==> forall k :: 0 <= k < |st.objs| && k != idx ==> r.value.objs[k] == st.objs[k]
    ensures r.Success? ==> r.value.objs[idx].id == st.objs[idx].id && r.value.objs[idx].cls == st.objs[idx].cls
                           && r.value.objs[idx].parent == st.objs[idx].parent
    ensures mangled && Mangles(cls) ==> r.Failure?
    decreases j, 1
  {
    var kids :- BuildChildren(st, idx, cls, j, mangled);
    BuildParts(st, kids.0, kids.1, idx, cls, j, mangled)
  }

  /** The children of a context, constructed under the element at `idx`. */
  function BuildChildren(st: Store, idx: nat, cls: Cls, j: JNode, mangled: bool)
    : (r: Result<(Store, seq<nat>)>)
    requires Inv(st) && idx < |st.objs|
    ensures r.Success? ==> Inv(r.value.0) && Extends(st, r.value.0)
    decreases j, 0
  {
    if IsContextCls(cls) && j.hasChildren then ConstructAll(st, Some(idx), j.children, mangled)
    else Success((st, []))
  }

  /** The class's named parts, then the stored content. */
  function BuildParts(st: Store, kidsSt: Store, kids: seq<nat>, idx: nat, cls: Cls, j: JNode, mangled: bool)
    : (r: Result<Store>)
    requires Inv(kidsSt) && idx < |st.objs| && Extends(st, kidsSt)
    ensures r.Success? ==> Inv(r.value) && |st.objs| <= |r.value.objs|
    ensures r.Success? ==> |st.order| <= |r.value.order| && r.value.order[..|st.order|] == st.order
    ensures r.Success? ==> forall k :: 0 <= k < |st.objs| && k != idx ==> r.value.objs[k] == st.objs[k]
    ensures r.Success? ==> r.value.objs[idx].id == st.objs[idx].id && r.value.objs[idx].cls == st.objs[idx].cls
                           && r.value.objs[idx].parent == st.objs[idx].parent
    ensures mangled && Mangles(cls) ==> r.Failure?
    decreases j, 0
  {
    if |j.parts| != PartCount(cls) then Failure("KeyError")
    else
      var made :- ConstructAll(kidsSt, Some(idx), j.parts, mangled);
      if mangled && Mangles(cls) then Failure("AttributeError")
      else
        ExtendsTrans(st, kidsSt, made.0);
        Success(Finish(st, made.0, idx, cls, kids, made.1))
  }

  /** Stores the children and parts in the element at `idx`; a section's
      content is its body's content. */
  function Finish(st: Store, made: Store, idx: nat, cls: Cls, kids: seq<nat>, parts: seq<nat>): (r: Store)
    requires Inv(made) && idx < |st.objs| && Extends(st, made)
    requires Below(parts, |made.objs|)
    ensures Inv(r) && |st.objs| <= |r.objs|
    ensures |st.order| <= |r.order| && r.order[..|st.order|] == st.order
    ensures forall k :: 0 <= k < |st.objs| && k != idx ==> r.objs[k] == st.objs[k]
    ensures r.objs[idx].id == st.objs[idx].id && r.objs[idx].cls == st.objs[idx].cls
            && r.objs[idx].parent == st.objs[idx].parent
  {
    assert forall k :: 0 <= k < |st.objs| ==> made.objs[k] == made.objs[..|st.objs|][k];
    var content := if cls == SectionCls && |parts| == 2 then made.objs[parts[1]].content else kids;
    SetContent(made, idx, content, parts)
  }

  /** The `Prop` entries of a text element. */
  function ParseAll(labels: seq<string>): (r: seq<Prop>)
    ensures |r| == |labels| && forall i :: 0 <= i < |labels| ==> r[i] == ParseLabel(labels[i])
  {
    seq(|labels|, i requires 0 <= i < |labels| => ParseLabel(labels[i]))
  }

  /** The list comprehensions over `json_data['children']` and the like:
      elements are constructed left to right and the first failure ends
      the page. */
  function ConstructAll(st: Store, parent: Option<nat>, js: seq<JNode>, mangled: bool)
    : (r: Result<(Store, seq<nat>)>)
    requires Inv(st)
    requires parent.Some? ==> parent.value < |st.objs|
    ensures r.Success? ==> Inv(r.value.0) && Extends(st, r.value.0) && |r.value.1| == |js|
    ensures r.Success? ==> Below(r.value.1, |r.value.0.objs|)
    decreases js, 2
  {
    if |js| == 0 then Success((st, []))
    else
      var first :- Construct(st, parent, js[0], mangled);
      var rest :- ConstructAll(first.0, parent, js[1..], mangled);
      ExtendsTrans(st, first.0, rest.0);
      ConsBelow(first.1, rest.1, |rest.0.objs|);
      Success((rest.0, [first.1] + rest.1))
  }

  /** Every entry of `xs` is an index below `n`. */
  predicate Below(xs: seq<nat>, n: nat) {
    forall i :: 0 <= i < |xs| ==> xs[i] < n
  }

  lemma ConsBelow(x: nat, xs: seq<nat>, n: nat)
    requires x < n && Below(xs, n)
    ensures Below([x] + xs, n)
  {
    assert forall i :: 1 <= i < |xs| + 1 ==> ([x] + xs)[i] == xs[i - 1];
  }

  /** `part_of()`: the element's own class and those of all its ancestors. */
  function PartOf(objs: seq<Obj>, k: nat): (r: set<Cls>)
    requires k < |objs| && ParentsFirst(objs)
    decreases k
  {
    {objs[k].cls} + match objs[k].parent
                    case None => {}
                    case Some(p) => PartOf(objs, p)
  }

  /** The ancestors of `k`, itself included, by walking parent links. */
  predicate IsAncestor(objs: seq<Obj>, a: nat, k: nat)
    requires k < |objs| && ParentsFirst(objs)
    decreases k
  {
    a == k || (objs[k].parent.Some? && IsAncestor(objs, a, objs[k].parent.value))
  }

  /** A class is in `part_of()` exactly when some ancestor has it. */
  lemma {:induction false} PartOfAncestors(objs: seq<Obj>, k: nat, c: Cls)
    requires k < |objs| && ParentsFirst(objs)
    ensures c in PartOf(objs, k) <==> exists a :: 0 <= a <= k && IsAncestor(objs, a, k) && objs[a].cls == c
    decreases k
  {
    if objs[k].parent.Some? {
      var p := objs[k].parent.value;
      PartOfAncestors(objs, p, c);
      if c in PartOf(objs, k) && objs[k].cls != c {
        var a :| 0 <= a <= p && IsAncestor(objs, a, p) && objs[a].cls == c;
        assert IsAncestor(objs, a, k);
      }
      if exists a :: 0 <= a <= k && IsAncestor(objs, a, k) && objs[a].cls == c {
        var a :| 0 <= a <= k && IsAncestor(objs, a, k) && objs[a].cls == c;
        if a != k {
          AncestorBound(objs, a, p);
        }
      }
    }
  }

  lemma {:induction false} AncestorBound(objs: seq<Obj>, a: nat, k: nat)
    requires k < |objs| && ParentsFirst(objs) && IsAncestor(objs, a, k)
    ensures a <= k
    decreases k
  {
    if a != k {
      AncestorBound(objs, a, objs[k].parent.value);
    }
  }

  /** `is_part_of(target_type)` as written: at an element without a parent
      that does not match, `self.__parent` is `None` and the call raises
      `AttributeError`. */
  function IsPartOf(objs: seq<Obj>, k: nat, target: Cls): Result<bool>
    requires k < |objs| && ParentsFirst(objs)
    decreases k
  {
    if objs[k].cls == target then Success(true)
    else match objs[k].parent
         case None => Failure("AttributeError")
         case Some(p) => IsPartOf(objs, p, target)
  }

  /** As written, `is_part_of` never answers `False`: it answers `True`
      when the class is in `part_of()` and raises otherwise. */
  lemma {:induction false} IsPartOfNeverFalse(objs: seq<Obj>, k: nat, target: Cls)
    requires k < |objs| && ParentsFirst(objs)
    ensures IsPartOf(objs, k, target)
            == if target in PartOf(objs, k) then Success(true) else Failure("AttributeError")
    decreases k
  {
    if objs[k].cls != target && objs[k].parent.Some? {
      IsPartOfNeverFalse(objs, objs[k].parent.value, target);
    }
  }

  /** `is_part_of` as its documentation describes it: stops with `False`
      above the root. */
  function IsPartOfFixed(objs: seq<Obj>, k: nat, target: Cls): bool
    requires k < |objs| && ParentsFirst(objs)
    decreases k
  {
    objs[k].cls == target || (objs[k].parent.Some? && IsPartOfFixed(objs, objs[k].parent.value, target))
  }

  /** The corrected test agrees with `part_of()` in both directions. */
  lemma {:induction false} IsPartOfFixedAgrees(objs: seq<Obj>, k: nat, target: Cls)
    requires k < |objs| && ParentsFirst(objs)
    ensures IsPartOfFixed(objs, k, target) <==> target in PartOf(objs, k)
    decreases k
  {
    if objs[k].parent.Some? {
      IsPartOfFixedAgrees(objs, objs[k].parent.value, target);
    }
  }

  /** The registered element under `id` is a `Redirection`. */
  predicate IsRedirect(st: Store, id: int) {
    id in st.registry && st.registry[id] < |st.objs| && st.objs[st.registry[id]].cls == RedirectionCls
  }

  /** The position of the first redirection in a key order. */
  function FirstRedirect(st: Store, ids: seq<int>): (r: Option<nat>)
    ensures r.Some? ==> r.value < |ids| && IsRedirect(st, ids[r.value])
    ensures r.Some? ==> forall i :: 0 <= i < r.value ==> !IsRedirect(st, ids[i])
    ensures r.None? ==> forall i :: 0 <= i < |ids| ==> !IsRedirect(st, ids[i])
  {
    if |ids| == 0 then None
    else if IsRedirect(st, ids[0]) then Some(0)
    else match FirstRedirect(st, ids[1..])
         case None => None
         case Some(i) => Some(i + 1)
  }

  /** `WikiPage.redirection`: the target of the first `Redirection` in
      `all_elements` order, or `None`. The cached value is this same value,
      since the elements do not change after loading. */
  function Redirection(st: Store): (r: Option<string>)
    requires Inv(st)
    ensures r.Some? <==> exists id :: id in st.registry && IsRedirect(st, id)
    ensures r.Some? ==> exists i :: 0 <= i < |st.order| && IsRedirect(st, st.order[i])
                         && r.value == st.objs[st.registry[st.order[i]]].target
                         && forall h :: 0 <= h < i ==> !IsRedirect(st, st.order[h])
  {
    match FirstRedirect(st, st.order)
    case None =>
      assert forall id :: id in st.registry ==> id in st.order;
      None
    case Some(i) => Some(st.objs[st.registry[st.order[i]]].target)
  }

  /** The JSON document: the root, the refs context, and the link and
      section lists. */
  datatype PageJson = PageJson(root: JNode, refs: JNode, internals: seq<JNode>,
                               externals: seq<JNode>, sections: seq<JNode>)

  /** `WikiPage.__init__` after the JSON is read: everything is constructed
      in document order into one `all_elements`; the content is `root[0]`.
      Only contexts can be indexed, so a text or redirection root raises
      `TypeError`, and a context root without content raises `IndexError`. */
  function LoadPage(pj: PageJson, mangled: bool): (r: Result<Store>)
    ensures r.Success? ==> Inv(r.value)
    ensures pj.root.kind == "pointer" ==> r.Failure?
    ensures var root := Construct(Empty, None, pj.root, mangled);
            root.Success? && !IsContextCls(root.value.0.objs[root.value.1].cls) ==> r == Failure("TypeError")
    ensures var root := Construct(Empty, None, pj.root, mangled);
            (root.Success? && IsContextCls(root.value.0.objs[root.value.1].cls)
             && |root.value.0.objs[root.value.1].content| == 0) ==> r == Failure("IndexError")
    ensures r.Success? ==> var root := Construct(Empty, None, pj.root, mangled);
            root.Success? && IsContextCls(root.value.0.objs[root.value.1].cls)
            && |root.value.0.objs[root.value.1].content| > 0
  {
    var root :- Construct(Empty, None, pj.root, mangled);
    if !IsContextCls(root.0.objs[root.1].cls) then Failure("TypeError")
    else if |root.0.objs[root.1].content| == 0 then Failure("IndexError")
    else
      var refs :- Construct(root.0, None, pj.refs, mangled);
      var ints :- ConstructAll(refs.0, None, pj.internals, mangled);
      var exts :- ConstructAll(ints.0, None, pj.externals, mangled);
      var secs :- ConstructAll(exts.0, None, pj.sections, mangled);
      Success(secs.0)
  }

  /** The JSON kind of the root decides the indexing error: a page loads only
      from a root of a context kind, and a `text` or `redirection` root that
      constructs raises `TypeError` at `root[0]`. */
  lemma LoadPageNeedsContextRoot(pj: PageJson, mangled: bool)
    ensures LoadPage(pj, mangled).Success? ==>
              pj.root.kind != "pointer" && pj.root.kind != "text" && pj.root.kind != "redirection"
    ensures ((pj.root.kind == "text" || pj.root.kind == "redirection")
             && Construct(Empty, None, pj.root, mangled).Success?) ==> LoadPage(pj, mangled) == Failure("TypeError")
  {
    var root := Construct(Empty, None, pj.root, mangled);
    if root.Success? && pj.root.kind != "pointer" {
      var cls := root.value.0.objs[root.value.1].cls;
      assert Some(cls) == TypeMapping(pj.root.kind);
      assert IsContextCls(cls) <==> pj.root.kind != "text" && pj.root.kind != "redirection";
    }
  }

  /** The redirection of the page titled `title`, or the error loading it
      raises; a title without cached or fetchable JSON makes `json.loads`
      raise `TypeError`. */
  function PageRedirection(pages: string -> Option<PageJson>, mangled: bool, title: string)
    : (r: Result<Option<string>>)
    ensures pages(title).None? ==> r == Failure("TypeError")
  {
    match pages(title)
    case None => Failure("TypeError")
    case Some(pj) =>
      var st :- LoadPage(pj, mangled);
      Success(Redirection(st))
  }

  datatype Outcome = Loaded(title: string) | Raised(error: string) | Unfinished

  /** `resolve_page(title, follow_redictions)`: load the page, and while
      following is on and it redirects, load the target. There is no
      cycle detection; `fuel` bounds the number of hops, and `Unfinished`
      stands for a loop that has not stopped within it. */
  function ResolvePage(title: string, follow: bool, redirectOf: string -> Result<Option<string>>,
                       fuel: nat): (r: Outcome)
    ensures r.Loaded? ==> redirectOf(r.title).Success?
    ensures r.Loaded? && follow ==> redirectOf(r.title) == Success(None)
    ensures !follow ==> r == if redirectOf(title).Success? then Loaded(title) else Raised(redirectOf(title).error)
    decreases fuel
  {
    match redirectOf(title)
    case Failure(e) => Raised(e)
    case Success(target) =>
      if !follow || target.None? then Loaded(title)
      else if fuel == 0 then Unfinished
      else ResolvePage(target.value, follow, redirectOf, fuel - 1)
  }

  /** The title reached from `title` after `k` redirects, or `None` when a
      page on the way fails to load or does not redirect. */
  function Hop(title: string, redirectOf: string -> Result<Option<string>>, k: nat): Option<string>
    decreases k
  {
    if k == 0 then Some(title)
    else match redirectOf(title)
      case Success(Some(t)) => Hop(t, redirectOf, k - 1)
      case _ => None
  }

  /** Following redirections ends on the redirect chain that starts at
      `title`: a loaded page is the first page on it that does not redirect,
      an error is the error of loading a page on it, and a loop without end
      means every page within the hop budget redirects. */
  lemma {:induction false} ResolveFollowsChain(title: string, redirectOf: string -> Result<Option<string>>, fuel: nat)
    ensures var r := ResolvePage(title, true, redirectOf, fuel);
            r.Loaded? ==> exists k: nat :: k <= fuel && Hop(title, redirectOf, k) == Some(r.title)
    ensures var r := ResolvePage(title, true, redirectOf, fuel);
            r.Raised? ==> exists k: nat :: k <= fuel && Hop(title, redirectOf, k).Some?
                                      && redirectOf(Hop(title, redirectOf, k).value) == Failure(r.error)
    ensures ResolvePage(title, true, redirectOf, fuel).Unfinished? <==> Hop(title, redirectOf, fuel + 1).Some?
    decreases fuel
  {
    var r := ResolvePage(title, true, redirectOf, fuel);
    match redirectOf(title)
    case Failure(e) =>
      assert Hop(title, redirectOf, 0) == Some(title);
    case Success(target) =>
      if target.None? {
        assert Hop(title, redirectOf, 0) == Some(title);
      } else if fuel == 0 {
        assert Hop(target.value, redirectOf, 0) == Some(target.value);
      } else {
        var t := target.value;
        ResolveFollowsChain(t, redirectOf, fuel - 1);
        assert forall k: nat :: Hop(title, redirectOf, k + 1) == Hop(t, redirectOf, k);
        if r.Loaded? {
          var k: nat :| k <= fuel - 1 && Hop(t, redirectOf, k) == Some(r.title);
          assert Hop(title, redirectOf, k + 1) == Some(r.title);
        }
        if r.Raised? {
          var k: nat :| k <= fuel - 1 && Hop(t, redirectOf, k).Some? && redirectOf(Hop(t, redirectOf, k).value) == Failure(r.error);
          assert Hop(title, redirectOf, k + 1) == Hop(t, redirectOf, k);
        }
      }
  }

  /** A page on the chain that does not redirect, reached within the hop
      budget, is the page returned. */
  lemma {:induction false} ResolveReachesChainEnd(title: string, redirectOf: string -> Result<Option<string>>,
                                                  fuel: nat, k: nat, t: string)
    requires k <= fuel && Hop(title, redirectOf, k) == Some(t) && redirectOf(t) == Success(None)
    ensures ResolvePage(title, true, redirectOf, fuel) == Loaded(t)
    decreases k
  {
    if k > 0 {
      ResolveReachesChainEnd(redirectOf(title).value.value, redirectOf, fuel - 1, k - 1, t);
    }
  }

  /** More hops never change a finished outcome. */
  lemma {:induction false} ResolveFuelMonotone(title: string, follow: bool,
                                               redirectOf: string -> Result<Option<string>>,
                                               fuel: nat, more: nat)
    requires fuel <= more
    requires !ResolvePage(title, follow, redirectOf, fuel).Unfinished?
    ensures ResolvePage(title, follow, redirectOf, more) == ResolvePage(title, follow, redirectOf, fuel)
    decreases fuel
  {
    if follow && redirectOf(title).Success? && redirectOf(title).value.Some? {
      ResolveFuelMonotone(redirectOf(title).value.value, follow, redirectOf, fuel - 1, more - 1);
    }
  }

  /** Two pages that redirect to each other are followed forever. */
  lemma {:induction false} ResolveCycleNeverEnds(a: string, b: string,
                                                 redirectOf: string -> Result<Option<string>>, fuel: nat)
    requires redirectOf(a) == Success(Some(b)) && redirectOf(b) == Success(Some(a))
    ensures ResolvePage(a, true, redirectOf, fuel) == Unfinished
    ensures ResolvePage(b, true, redirectOf, fuel) == Unfinished
    decreases fuel
  {
    if fuel > 0 {
      ResolveCycleNeverEnds(a, b, redirectOf, fuel - 1);
    }
  }
}
