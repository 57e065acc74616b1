/** The walk over rustdoc's JSON index that names the external crates a public API reaches. */
module ExposedMajors {
  import opened Wrappers

  datatype Json =
    | Null
    | Flag(b: bool)
    | Id(id: int)
    | Str(s: string)
    | List(items: seq<Json>)
    | Dict(fields: seq<Field>)

  datatype Field = Field(name: string, value: Json)

  /** `idx`, `paths` and `ext` are the document's `index`, `paths` and `external_crates`. */
  datatype Item = Item(kind: string, body: Json, visibility: string)

  datatype PathEntry = PathEntry(crateId: int, path: seq<string>)

  datatype Doc = Doc(root: int, idx: map<int, Item>, paths: map<int, PathEntry>, ext: map<int, string>)

  const STD: set<string> := {"std", "core", "alloc", "proc_macro", "test"}

  // ----- reading a dictionary

  function Get(fields: seq<Field>, name: string): (v: Json)
    ensures (forall k :: 0 <= k < |fields| ==> fields[k].name != name) ==> v == Null
    ensures forall k :: 0 <= k < |fields| && fields[k].name == name &&
                        (forall j :: 0 <= j < k ==> fields[j].name != name) ==>
              v == fields[k].value
  {
    if fields == [] then Null
    else if fields[0].name == name then fields[0].value
    else Get(fields[1..], name)
  }

  function Key(t: Json, name: string): Json {
    if t.Dict? then Get(t.fields, name) else Null
  }

  predicate Truthy(t: Json)
    ensures Truthy(t) <==> t !in {Null, Flag(false), Id(0), Str(""), List([]), Dict([])}
  {
    match t
    case Null => false
    case Flag(b) => b
    case Id(n) => n != 0
    case Str(s) => s != ""
    case List(xs) => xs != []
    case Dict(fs) => fs != []
  }

  function Ids(t: Json): (ids: seq<int>)
    ensures forall j :: j in ids <==> t.List? && Id(j) in t.items
  {
    if t.List? then OnlyIds(t.items) else []
  }

  function OnlyIds(xs: seq<Json>): (ids: seq<int>)
    ensures forall j :: j in ids <==> Id(j) in xs
  {
    if xs == [] then [] else (if xs[0].Id? then [xs[0].id] else []) + OnlyIds(xs[1..])
  }

  function Without(fields: seq<Field>, names: set<string>): (r: seq<Field>)
    ensures forall f :: f in r <==> f in fields && f.name !in names
  {
    if fields == [] then []
    else (if fields[0].name in names then [] else [fields[0]]) + Without(fields[1..], names)
  }

  // ----- what one item contributes

  function CrateOf(doc: Doc, i: int): set<string> {
    if i in doc.paths && doc.paths[i].crateId != 0 && "__private" !in doc.paths[i].path &&
       doc.paths[i].crateId in doc.ext && doc.ext[doc.paths[i].crateId] != ""
    then {doc.ext[doc.paths[i].crateId]} else {}
  }

  /** The crate a dictionary names by itself: a resolved path, or a path with an id. */
  function Named(doc: Doc, t: Json): set<string> {
    var r := Key(t, "resolved_path");
    var r' := if r == Null && Key(t, "id") != Null && Key(t, "path").Str? then t else r;
    if Key(r', "id").Id? then CrateOf(doc, Key(r', "id").id) else {}
  }

  /** Every crate named anywhere inside `t`. */
  function Mentions(doc: Doc, t: Json): set<string>
    decreases t, 0
  {
    match t
    case Dict(fields) => Named(doc, t) + FieldMentions(doc, fields)
    case List(items) => ItemMentions(doc, items)
    case _ => {}
  }

  function FieldMentions(doc: Doc, fields: seq<Field>): set<string>
    decreases fields, |fields|
  {
    if fields == [] then {}
    else FieldMentions(doc, fields[..|fields| - 1]) + Mentions(doc, fields[|fields| - 1].value)
  }

  function ItemMentions(doc: Doc, items: seq<Json>): set<string>
    decreases items, |items|
  {
    if items == [] then {}
    else ItemMentions(doc, items[..|items| - 1]) + Mentions(doc, items[|items| - 1])
  }

  function Inner(item: Item): Json {
    Dict([Field(item.kind, item.body)])
  }

  /** Associated items, variants and fields of an item's body. */
  function Children(body: Json): seq<int> {
    var kd := Key(body, "kind");
    Ids(Key(body, "items")) + Ids(Key(body, "variants")) +
    Ids(Key(Key(kd, "plain"), "fields")) + Ids(Key(kd, "tuple"))
  }

  function ChildMentions(doc: Doc, c: int): set<string> {
    if c in doc.idx && (doc.idx[c].visibility == "public" || doc.idx[c].visibility == "default")
    then Mentions(doc, Inner(doc.idx[c])) else {}
  }

  function ChildrenMentions(doc: Doc, cs: seq<int>): set<string> {
    if cs == [] then {}
    else ChildrenMentions(doc, cs[..|cs| - 1]) + ChildMentions(doc, cs[|cs| - 1])
  }

  function MethodMentions(doc: Doc, ofTrait: bool, m: int): set<string> {
    if m in doc.idx && (ofTrait || doc.idx[m].visibility == "public") then Mentions(doc, Inner(doc.idx[m])) else {}
  }

  function MethodsMentions(doc: Doc, ofTrait: bool, ms: seq<int>): set<string> {
    if ms == [] then {}
    else MethodsMentions(doc, ofTrait, ms[..|ms| - 1]) + MethodMentions(doc, ofTrait, ms[|ms| - 1])
  }

  function ImplBody(doc: Doc, im: int): Json {
    if im in doc.idx && doc.idx[im].kind == "impl" then doc.idx[im].body else Null
  }

  function TraitCrate(doc: Doc, tr: Json): set<string> {
    if Truthy(tr) && Key(tr, "id").Id? then CrateOf(doc, Key(tr, "id").id) else {}
  }

  function ImplMentions(doc: Doc, im: int): set<string> {
    var ib := ImplBody(doc, im);
    if Truthy(Key(ib, "is_synthetic")) || Truthy(Key(ib, "blanket_impl")) then {}
    else
      var tr := Key(ib, "trait");
      Mentions(doc, Key(ib, "generics")) + TraitCrate(doc, tr) + MethodsMentions(doc, Truthy(tr), Ids(Key(ib, "items")))
  }

  function ImplsMentions(doc: Doc, ims: seq<int>): set<string> {
    if ims == [] then {}
    else ImplsMentions(doc, ims[..|ims| - 1]) + ImplMentions(doc, ims[|ims| - 1])
  }

  const ELSEWHERE: set<string> := {"impls", "items", "fields", "variants", "kind"}

  function PublicMentions(doc: Doc, body: Json): set<string>
    requires body.Dict?
  {
    Mentions(doc, Dict(Without(body.fields, ELSEWHERE))) +
    ChildrenMentions(doc, Children(body)) +
    ImplsMentions(doc, Ids(Key(body, "impls")))
  }

  /** A public item with a body that is neither a module nor a re-export. */
  predicate IsPublicItem(doc: Doc, i: int) {
    && i in doc.idx && doc.idx[i].body.Dict?
    && doc.idx[i].kind != "module" && doc.idx[i].kind != "use"
    && doc.idx[i].visibility == "public"
  }

  function UseTarget(item: Item): Option<int> {
    if Key(item.body, "id").Id? then Some(Key(item.body, "id").id) else None
  }

  /** What visiting `i` adds by itself. */
  function Local(doc: Doc, i: int): set<string> {
    if i !in doc.idx then CrateOf(doc, i)
    else
      var item := doc.idx[i];
      if item.kind == "use" && item.body.Dict? && UseTarget(item).Some? && UseTarget(item).value !in doc.idx
      then CrateOf(doc, UseTarget(item).value)
      else if IsPublicItem(doc, i) then PublicMentions(doc, item.body)
      else {}
  }

  /** Where the walk goes from `i`: a module's items, a re-export's target. */
  function Next(doc: Doc, i: int): seq<int> {
    if i !in doc.idx || !doc.idx[i].body.Dict? then []
    else if doc.idx[i].kind == "module" then Ids(Key(doc.idx[i].body, "items"))
    else if doc.idx[i].kind == "use" && UseTarget(doc.idx[i]).Some? && UseTarget(doc.idx[i]).value in doc.idx
    then [UseTarget(doc.idx[i]).value]
    else []
  }

  // ----- the same, read off the document

  /** `u` is `t` or stands somewhere inside it. */
  ghost predicate Inside(u: Json, t: Json) {
    || u == t
    || (t.Dict? && exists k :: 0 <= k < |t.fields| && Inside(u, t.fields[k].value))
    || (t.List? && exists k :: 0 <= k < |t.items| && Inside(u, t.items[k]))
  }

  /** Item `i` is of the external crate `c`, and not behind a private path. */
  ghost predicate OfCrate(doc: Doc, i: int, c: string) {
    && i in doc.paths && doc.paths[i].crateId != 0 && "__private" !in doc.paths[i].path
    && doc.paths[i].crateId in doc.ext && doc.ext[doc.paths[i].crateId] == c != ""
  }

  /** A dictionary refers to item `i`: by its resolved path, or, having none, by an ID beside
      a path. */
  ghost predicate RefersTo(u: Json, i: int) {
    || Key(Key(u, "resolved_path"), "id") == Id(i)
    || (Key(u, "resolved_path") == Null && Key(u, "id") == Id(i) && Key(u, "path").Str?)
  }

  ghost predicate NamedInside(doc: Doc, t: Json, c: string) {
    exists u, i :: Inside(u, t) && RefersTo(u, i) && OfCrate(doc, i, c)
  }

  lemma NamedIff(doc: Doc, t: Json, c: string)
    ensures c in Named(doc, t) <==> exists i :: RefersTo(t, i) && OfCrate(doc, i, c)
  {
    var r := Key(t, "resolved_path");
    var r' := if r == Null && Key(t, "id") != Null && Key(t, "path").Str? then t else r;
    if c in Named(doc, t) {
      var i := Key(r', "id").id;
      assert RefersTo(t, i) && OfCrate(doc, i, c);
    }
  }

  /** A scan finds exactly the crates that some dictionary inside refers to. */
  lemma {:induction false} MentionsIff(doc: Doc, t: Json, c: string)
    ensures c in Mentions(doc, t) <==> NamedInside(doc, t, c)
    decreases t
  {
    hide RefersTo, OfCrate, Named;
    NamedIff(doc, t, c);
    match t
    case Dict(fields) =>
      forall k | 0 <= k < |fields|
        ensures c in Mentions(doc, fields[k].value) <==> NamedInside(doc, fields[k].value, c)
      {
        MentionsIff(doc, fields[k].value, c);
      }
      FieldMentionsIff(doc, fields, c);
      InsideDict(doc, t, c);
    case List(items) =>
      forall k | 0 <= k < |items|
        ensures c in Mentions(doc, items[k]) <==> NamedInside(doc, items[k], c)
      {
        MentionsIff(doc, items[k], c);
      }
      ItemMentionsIff(doc, items, c);
      InsideDict(doc, t, c);
      NotADict(doc, t, c);
    case _ =>
      NotADict(doc, t, c);
  }

  lemma NotADict(doc: Doc, t: Json, c: string)
    requires !t.Dict?
    ensures forall i :: !RefersTo(t, i)
    ensures !t.List? ==> !NamedInside(doc, t, c)
  {
  }

  lemma InsideDict(doc: Doc, t: Json, c: string)
    ensures NamedInside(doc, t, c) <==>
            || (exists i :: RefersTo(t, i) && OfCrate(doc, i, c))
            || (t.Dict? && exists k :: 0 <= k < |t.fields| && NamedInside(doc, t.fields[k].value, c))
            || (t.List? && exists k :: 0 <= k < |t.items| && NamedInside(doc, t.items[k], c))
  {
    hide RefersTo, OfCrate;
    if NamedInside(doc, t, c) {
      var u, i :| Inside(u, t) && RefersTo(u, i) && OfCrate(doc, i, c);
      if u != t {
        if t.Dict? {
          var k :| 0 <= k < |t.fields| && Inside(u, t.fields[k].value);
          assert NamedInside(doc, t.fields[k].value, c);
        } else {
          var k :| 0 <= k < |t.items| && Inside(u, t.items[k]);
          assert NamedInside(doc, t.items[k], c);
        }
      }
    }
    if exists i :: RefersTo(t, i) && OfCrate(doc, i, c) {
      assert Inside(t, t);
    }
    if t.Dict? && exists k :: 0 <= k < |t.fields| && NamedInside(doc, t.fields[k].value, c) {
      var k :| 0 <= k < |t.fields| && NamedInside(doc, t.fields[k].value, c);
      var u, i :| Inside(u, t.fields[k].value) && RefersTo(u, i) && OfCrate(doc, i, c);
      assert Inside(u, t);
    }
    if t.List? && exists k :: 0 <= k < |t.items| && NamedInside(doc, t.items[k], c) {
      var k :| 0 <= k < |t.items| && NamedInside(doc, t.items[k], c);
      var u, i :| Inside(u, t.items[k]) && RefersTo(u, i) && OfCrate(doc, i, c);
      assert Inside(u, t);
    }
  }

  lemma {:induction false} FieldMentionsIff(doc: Doc, fields: seq<Field>, c: string)
    ensures c in FieldMentions(doc, fields) <==> exists k :: 0 <= k < |fields| && c in Mentions(doc, fields[k].value)
  {
    hide Mentions;
    if fields != [] {
      var n := |fields| - 1;
      FieldMentionsIff(doc, fields[..n], c);
      assert forall k :: 0 <= k < n ==> fields[..n][k] == fields[k];
    }
  }

  lemma {:induction false} ItemMentionsIff(doc: Doc, items: seq<Json>, c: string)
    ensures c in ItemMentions(doc, items) <==> exists k :: 0 <= k < |items| && c in Mentions(doc, items[k])
  {
    hide Mentions;
    if items != [] {
      var n := |items| - 1;
      ItemMentionsIff(doc, items[..n], c);
      assert forall k :: 0 <= k < n ==> items[..n][k] == items[k];
    }
  }

  /** A list's contribution is that of its members, for children, methods and impls alike. */
  lemma {:induction false} ChildrenIff(doc: Doc, cs: seq<int>, c: string)
    ensures c in ChildrenMentions(doc, cs) <==> exists id :: id in cs && c in ChildMentions(doc, id)
  {
    hide ChildMentions;
    if cs != [] {
      var n := |cs| - 1;
      ChildrenIff(doc, cs[..n], c);
      assert cs == cs[..n] + [cs[n]];
    }
  }

  lemma {:induction false} MethodsIff(doc: Doc, ofTrait: bool, ms: seq<int>, c: string)
    ensures c in MethodsMentions(doc, ofTrait, ms) <==> exists m :: m in ms && c in MethodMentions(doc, ofTrait, m)
  {
    hide MethodMentions;
    if ms != [] {
      var n := |ms| - 1;
      MethodsIff(doc, ofTrait, ms[..n], c);
      assert ms == ms[..n] + [ms[n]];
    }
  }

  lemma {:induction false} ImplsIff(doc: Doc, ims: seq<int>, c: string)
    ensures c in ImplsMentions(doc, ims) <==> exists im :: im in ims && c in ImplMentions(doc, im)
  {
    hide ImplMentions;
    if ims != [] {
      var n := |ims| - 1;
      ImplsIff(doc, ims[..n], c);
      assert ims == ims[..n] + [ims[n]];
    }
  }

  /** The whole of item `id` names `c`. */
  ghost predicate ItemNames(doc: Doc, id: int, c: string) {
    id in doc.idx && NamedInside(doc, Dict([Field(doc.idx[id].kind, doc.idx[id].body)]), c)
  }

  /** An impl that is neither synthetic nor blanket names `c` through its generics, its trait or
      a method of it, which must be public unless it is the trait's. */
  ghost predicate ImplNames(doc: Doc, im: int, c: string) {
    im in doc.idx && doc.idx[im].kind == "impl" &&
    var ib := doc.idx[im].body;
    && !Truthy(Key(ib, "is_synthetic")) && !Truthy(Key(ib, "blanket_impl"))
    && (|| NamedInside(doc, Key(ib, "generics"), c)
        || (exists i :: Key(Key(ib, "trait"), "id") == Id(i) && OfCrate(doc, i, c))
        || (exists m :: && m in Ids(Key(ib, "items")) && ItemNames(doc, m, c)
                        && (Truthy(Key(ib, "trait")) || doc.idx[m].visibility == "public")))
  }

  lemma ChildIff(doc: Doc, id: int, c: string)
    ensures c in ChildMentions(doc, id) <==>
            ItemNames(doc, id, c) && (doc.idx[id].visibility == "public" || doc.idx[id].visibility == "default")
  {
    hide Mentions, NamedInside;
    if id in doc.idx {
      MentionsIff(doc, Inner(doc.idx[id]), c);
    }
  }

  lemma MethodIff(doc: Doc, ofTrait: bool, m: int, c: string)
    ensures c in MethodMentions(doc, ofTrait, m) <==>
            ItemNames(doc, m, c) && (ofTrait || doc.idx[m].visibility == "public")
  {
    hide Mentions, NamedInside;
    if m in doc.idx {
      MentionsIff(doc, Inner(doc.idx[m]), c);
    }
  }

  lemma ImplIff(doc: Doc, im: int, c: string)
    ensures c in ImplMentions(doc, im) <==> ImplNames(doc, im, c)
  {
    hide Mentions, NamedInside, MethodMentions, OfCrate;
    var ib := ImplBody(doc, im);
    var tr, methods := Key(ib, "trait"), Ids(Key(ib, "items"));
    MentionsIff(doc, Key(ib, "generics"), c);
    MethodsIff(doc, Truthy(tr), methods, c);
    forall m
      ensures c in MethodMentions(doc, Truthy(tr), m) <==>
              ItemNames(doc, m, c) && (Truthy(tr) || doc.idx[m].visibility == "public")
    {
      MethodIff(doc, Truthy(tr), m, c);
    }
    TraitIff(doc, tr, c);
    NothingInNull(doc, c);
  }

  lemma NothingInNull(doc: Doc, c: string)
    ensures !NamedInside(doc, Null, c)
  {
    NotADict(doc, Null, c);
  }

  lemma TraitIff(doc: Doc, tr: Json, c: string)
    ensures c in TraitCrate(doc, tr) <==> exists i :: Key(tr, "id") == Id(i) && OfCrate(doc, i, c)
  {
    if Key(tr, "id").Id? {
      assert Truthy(tr);
      assert c in TraitCrate(doc, tr) <==> OfCrate(doc, Key(tr, "id").id, c);
    }
  }

  /** What a public item contributes, read off the document: the crates named in its body
      outside the five fields that are looked at one by one, in the public and default items
      it lists, and in its impls. */
  lemma PublicIff(doc: Doc, body: Json, c: string)
    requires body.Dict?
    ensures c in PublicMentions(doc, body) <==>
            || NamedInside(doc, Dict(Without(body.fields, {"impls", "items", "fields", "variants", "kind"})), c)
            || (exists id ::
                  && ItemNames(doc, id, c)
                  && (doc.idx[id].visibility == "public" || doc.idx[id].visibility == "default")
                  && (|| id in Ids(Key(body, "items")) || id in Ids(Key(body, "variants"))
                      || id in Ids(Key(Key(Key(body, "kind"), "plain"), "fields"))
                      || id in Ids(Key(Key(body, "kind"), "tuple"))))
            || (exists im :: im in Ids(Key(body, "impls")) && ImplNames(doc, im, c))
  {
    hide Mentions, NamedInside, ImplMentions, ImplNames, ChildMentions, Key, Without, Ids;
    MentionsIff(doc, Dict(Without(body.fields, ELSEWHERE)), c);
    ChildrenIff(doc, Children(body), c);
    ImplsIff(doc, Ids(Key(body, "impls")), c);
    forall id
      ensures c in ChildMentions(doc, id) <==>
              ItemNames(doc, id, c) && (doc.idx[id].visibility == "public" || doc.idx[id].visibility == "default")
    {
      ChildIff(doc, id, c);
    }
    forall im
      ensures c in ImplMentions(doc, im) <==> ImplNames(doc, im, c)
    {
      ImplIff(doc, im, c);
    }
  }

  /** What visiting an item adds: the crate of one that is not in the index, or of a re-export's
      target that is not; and a public item's contribution. */
  lemma LocalIff(doc: Doc, i: int, c: string)
    ensures c in Local(doc, i) <==>
            if i !in doc.idx then OfCrate(doc, i, c)
            else
              var item := doc.idx[i];
              && item.body.Dict?
              && (|| (item.kind == "use" && exists target ::
                        Key(item.body, "id") == Id(target) && target !in doc.idx && OfCrate(doc, target, c))
                  || (item.kind != "use" && item.kind != "module" && item.visibility == "public" &&
                      c in PublicMentions(doc, item.body)))
  {
    hide PublicMentions;
  }

  /** The walk goes from a module to its items and from a re-export to its target. */
  lemma NextIff(doc: Doc, i: int, j: int)
    ensures j in Next(doc, i) <==>
            && i in doc.idx && doc.idx[i].body.Dict?
            && (|| (doc.idx[i].kind == "module" && j in Ids(Key(doc.idx[i].body, "items")))
                || (doc.idx[i].kind == "use" && Key(doc.idx[i].body, "id") == Id(j) && j in doc.idx))
  {
  }

  // ----- where the script stops

  predicate Has(t: Json, name: string)
    ensures Has(t, name) <==> t.Dict? && name in set f | f in t.fields :: f.name
  {
    t.Dict? && exists k :: 0 <= k < |t.fields| && t.fields[k].name == name
  }

  /** An external crate that the document does not list. */
  predicate CrateStops(doc: Doc, i: int) {
    && i in doc.paths && doc.paths[i].crateId != 0 && "__private" !in doc.paths[i].path
    && doc.paths[i].crateId !in doc.ext
  }

  predicate NamedStops(doc: Doc, t: Json) {
    var r := Key(t, "resolved_path");
    var r' := if r == Null && Key(t, "id") != Null && Key(t, "path").Str? then t else r;
    r' != Null && (!Has(r', "id") || (Key(r', "id").Id? && CrateStops(doc, Key(r', "id").id)))
  }

  /** A scan of `t` comes to something that is not there. */
  predicate Stops(doc: Doc, t: Json) {
    match t
    case Dict(fields) => NamedStops(doc, t) || exists k :: 0 <= k < |fields| && Stops(doc, fields[k].value)
    case List(items) => exists k :: 0 <= k < |items| && Stops(doc, items[k])
    case _ => false
  }

  predicate ChildStops(doc: Doc, c: int) {
    && c in doc.idx && (doc.idx[c].visibility == "public" || doc.idx[c].visibility == "default")
    && Stops(doc, Inner(doc.idx[c]))
  }

  predicate MethodStops(doc: Doc, ofTrait: bool, m: int) {
    m !in doc.idx || ((ofTrait || doc.idx[m].visibility == "public") && Stops(doc, Inner(doc.idx[m])))
  }

  predicate TraitStops(doc: Doc, tr: Json) {
    Truthy(tr) && (!Has(tr, "id") || (Key(tr, "id").Id? && CrateStops(doc, Key(tr, "id").id)))
  }

  predicate ImplStops(doc: Doc, im: int) {
    var ib := ImplBody(doc, im);
    || !ib.Dict?
    || (&& !Truthy(Key(ib, "is_synthetic")) && !Truthy(Key(ib, "blanket_impl"))
        && (|| Stops(doc, Key(ib, "generics")) || TraitStops(doc, Key(ib, "trait")) || !Has(ib, "items")
            || exists m :: m in Ids(Key(ib, "items")) && MethodStops(doc, Truthy(Key(ib, "trait")), m)))
  }

  predicate PublicStops(doc: Doc, body: Json)
    requires body.Dict?
  {
    || Stops(doc, Dict(Without(body.fields, ELSEWHERE)))
    || (exists c :: c in Children(body) && ChildStops(doc, c))
    || (exists im :: im in Ids(Key(body, "impls")) && ImplStops(doc, im))
  }

  /** Visiting `i` by itself stops the script. */
  predicate LocalStops(doc: Doc, i: int) {
    if i !in doc.idx then CrateStops(doc, i)
    else
      var item := doc.idx[i];
      && item.body.Dict?
      && if item.kind == "module" then !Has(item.body, "items")
         else if item.kind == "use" then
           UseTarget(item).Some? && UseTarget(item).value !in doc.idx && CrateStops(doc, UseTarget(item).value)
         else item.visibility == "public" && PublicStops(doc, item.body)
  }

  /** A scan stops exactly if a dictionary inside has a reference without an ID, or one to an
      item of an external crate that the document does not list. */
  lemma {:induction false} StopsIff(doc: Doc, t: Json)
    ensures Stops(doc, t) <==> exists u :: Inside(u, t) && DangledBy(doc, u)
    decreases t
  {
    hide DangledBy;
    DanglingIff(doc, t);
    if t.Dict? {
      forall k | 0 <= k < |t.fields|
        ensures Stops(doc, t.fields[k].value) <==> exists u :: Inside(u, t.fields[k].value) && DangledBy(doc, u)
      {
        StopsIff(doc, t.fields[k].value);
      }
    } else if t.List? {
      forall k | 0 <= k < |t.items|
        ensures Stops(doc, t.items[k]) <==> exists u :: Inside(u, t.items[k]) && DangledBy(doc, u)
      {
        StopsIff(doc, t.items[k]);
      }
    }
    InsideStops(doc, t);
  }

  ghost predicate DangledBy(doc: Doc, u: Json) {
    || (Key(u, "resolved_path") != Null && !Has(Key(u, "resolved_path"), "id"))
    || (exists i :: RefersTo(u, i) && Unlisted(doc, i))
  }

  /** Item `i` is of an external crate that has no name. */
  ghost predicate Unlisted(doc: Doc, i: int) {
    i in doc.paths && doc.paths[i].crateId !in doc.ext && doc.paths[i].crateId != 0 && "__private" !in doc.paths[i].path
  }

  lemma DanglingIff(doc: Doc, t: Json)
    ensures DangledBy(doc, t) <==> t.Dict? && NamedStops(doc, t)
  {
    var r := Key(t, "resolved_path");
    var r' := if r == Null && Key(t, "id") != Null && Key(t, "path").Str? then t else r;
    if t.Dict? && NamedStops(doc, t) && Has(r', "id") {
      assert RefersTo(t, Key(r', "id").id) && Unlisted(doc, Key(r', "id").id);
    }
  }

  lemma InsideStops(doc: Doc, t: Json)
    ensures (exists u :: Inside(u, t) && DangledBy(doc, u)) <==>
            || DangledBy(doc, t)
            || (t.Dict? && exists k, u :: 0 <= k < |t.fields| && Inside(u, t.fields[k].value) && DangledBy(doc, u))
            || (t.List? && exists k, u :: 0 <= k < |t.items| && Inside(u, t.items[k]) && DangledBy(doc, u))
  {
    hide DangledBy;
    assert Inside(t, t);
  }

  /** A visit stops at a module without items, at a crate that is not listed, and at a public
      item whose body, listed items or impls refer to something missing. */
  lemma LocalStopsIff(doc: Doc, i: int)
    ensures LocalStops(doc, i) <==>
            if i !in doc.idx then Unlisted(doc, i)
            else
              var body := doc.idx[i].body;
              && body.Dict?
              && match doc.idx[i].kind {
                   case "module" => !Has(body, "items")
                   case "use" =>
                     exists target :: Key(body, "id") == Id(target) && target !in doc.idx && Unlisted(doc, target)
                   case _ => doc.idx[i].visibility == "public" && PublicStops(doc, body)
                 }
  {
    hide PublicStops, Has, Key;
    if i in doc.idx && Key(doc.idx[i].body, "id").Id? {
      var target := Key(doc.idx[i].body, "id").id;
      assert CrateStops(doc, target) <==> Unlisted(doc, target);
    }
  }

  lemma PublicStopsIff(doc: Doc, body: Json)
    requires body.Dict?
    ensures PublicStops(doc, body) <==>
            || Stops(doc, Dict(Without(body.fields, {"impls", "items", "fields", "variants", "kind"})))
            || (exists id ::
                  && id in doc.idx && (doc.idx[id].visibility == "public" || doc.idx[id].visibility == "default")
                  && Stops(doc, Dict([Field(doc.idx[id].kind, doc.idx[id].body)]))
                  && (|| id in Ids(Key(body, "items")) || id in Ids(Key(body, "variants"))
                      || id in Ids(Key(Key(Key(body, "kind"), "plain"), "fields"))
                      || id in Ids(Key(Key(body, "kind"), "tuple"))))
            || (exists im :: im in Ids(Key(body, "impls")) && ImplStops(doc, im))
  {
    hide Stops, ImplStops, Key, Without, Ids;
    assert forall id :: ChildStops(doc, id) <==>
      && id in doc.idx && (doc.idx[id].visibility == "public" || doc.idx[id].visibility == "default")
      && Stops(doc, Dict([Field(doc.idx[id].kind, doc.idx[id].body)]));
    var items, variants := Ids(Key(body, "items")), Ids(Key(body, "variants"));
    var plain, tuple := Ids(Key(Key(Key(body, "kind"), "plain"), "fields")), Ids(Key(Key(body, "kind"), "tuple"));
    assert forall id :: id in Children(body) <==> id in items || id in variants || id in plain || id in tuple;
  }

  /** An impl stops the script if it is missing or, neither synthetic nor blanket, has no items,
      a trait without a listed crate, or a method that is missing. */
  lemma ImplStopsIff(doc: Doc, im: int)
    ensures ImplStops(doc, im) <==>
            || im !in doc.idx || doc.idx[im].kind != "impl" || !doc.idx[im].body.Dict?
            || (var ib := doc.idx[im].body;
                var tr := Key(ib, "trait");
                && !Truthy(Key(ib, "is_synthetic")) && !Truthy(Key(ib, "blanket_impl"))
                && (|| Stops(doc, Key(ib, "generics")) || !Has(ib, "items")
                    || (Truthy(tr) && (!Has(tr, "id") || exists i :: Key(tr, "id") == Id(i) && Unlisted(doc, i)))
                    || (exists m :: && m in Ids(Key(ib, "items"))
                                    && (|| m !in doc.idx
                                        || (&& (Truthy(tr) || doc.idx[m].visibility == "public")
                                            && Stops(doc, Dict([Field(doc.idx[m].kind, doc.idx[m].body)])))))))
  {
    hide Stops, Key, Ids, Has;
    if im in doc.idx {
      var tr := Key(doc.idx[im].body, "trait");
      if Key(tr, "id").Id? {
        assert CrateStops(doc, Key(tr, "id").id) <==> Unlisted(doc, Key(tr, "id").id);
      }
      assert forall m :: MethodStops(doc, Truthy(tr), m) <==>
        || m !in doc.idx
        || (&& (Truthy(tr) || doc.idx[m].visibility == "public")
            && Stops(doc, Dict([Field(doc.idx[m].kind, doc.idx[m].body)])));
    }
  }

  // ----- what the walk should find

  /** `p` leads from `from` to `to` along modules and re-exports. */
  ghost predicate IsPath(doc: Doc, from: int, to: int, p: seq<int>) {
    && p != [] && p[0] == from && p[|p| - 1] == to
    && forall k :: 0 < k < |p| ==> p[k] in Next(doc, p[k - 1])
  }

  ghost predicate Reachable(doc: Doc, from: int, to: int) {
    exists p :: IsPath(doc, from, to, p)
  }

  /** Everything `seen` contributes, and the public items in it. */
  ghost function Contributions(doc: Doc, seen: set<int>): set<string> {
    set i, c | i in seen && c in Local(doc, i) :: c
  }

  ghost function PublicItems(doc: Doc, seen: set<int>): set<int> {
    set i | i in seen && IsPublicItem(doc, i)
  }

  lemma ReachSelf(doc: Doc, i: int)
    ensures Reachable(doc, i, i)
  {
    assert IsPath(doc, i, i, [i]);
  }

  lemma ReachStep(doc: Doc, i: int, j: int, v: int)
    requires j in Next(doc, i) && Reachable(doc, j, v)
    ensures Reachable(doc, i, v)
  {
    var p :| IsPath(doc, j, v, p);
    var q := [i] + p;
    forall k | 0 < k < |q|
      ensures q[k] in Next(doc, q[k - 1])
    {
      if k > 1 {
        assert p[k - 1] in Next(doc, p[k - 2]);
      }
    }
    assert IsPath(doc, i, v, q);
  }

  /** A set closed under `Next` holds whatever is reachable from inside it. */
  lemma {:induction false} ClosedHoldsPath(doc: Doc, s: set<int>, from: int, to: int, p: seq<int>)
    requires from in s && forall v, w :: v in s && w in Next(doc, v) ==> w in s
    requires IsPath(doc, from, to, p)
    ensures to in s
    decreases |p|
  {
    if |p| > 1 {
      var n := |p| - 1;
      assert IsPath(doc, from, p[n - 1], p[..n]);
      ClosedHoldsPath(doc, s, from, p[n - 1], p[..n]);
      assert p[n] in Next(doc, p[n - 1]);
    }
  }

  lemma VisitOne(doc: Doc, seen: set<int>, i: int)
    requires i !in seen
    ensures Contributions(doc, seen + {i}) == Contributions(doc, seen) + Local(doc, i)
    ensures |PublicItems(doc, seen + {i})| == |PublicItems(doc, seen)| + if IsPublicItem(doc, i) then 1 else 0
  {
    hide Local;
    assert PublicItems(doc, seen + {i}) == PublicItems(doc, seen) + if IsPublicItem(doc, i) then {i} else {};
  }

  // ----- the walk

  class Walker {
    const doc: Doc
    var found: set<string>
    var seen: set<int>
    var publicItems: nat

    constructor (doc: Doc)
      ensures this.doc == doc && found == {} && seen == {} && publicItems == 0
    {
      this.doc := doc;
      found, seen, publicItems := {}, {}, 0;
    }

    /** Nothing is lost and nothing is counted twice between two visits. */
    ghost predicate Valid()
      reads this
    {
      found == Contributions(doc, seen) && publicItems == |PublicItems(doc, seen)|
    }

    /** Either something is not there, or every crate named in `t` is found. */
    method Scan(t: Json) returns (ok: bool)
      modifies this`found
      ensures ok <==> !Stops(doc, t)
      ensures ok ==> found == old(found) + Mentions(doc, t)
      decreases t
    {
      hide Named, NamedStops;
      match t
      case Dict(fields) =>
        if NamedStops(doc, t) {
          return false;
        }
        found := found + Named(doc, t);
        for k := 0 to |fields|
          invariant forall j :: 0 <= j < k ==> !Stops(doc, fields[j].value)
          invariant found == old(found) + Named(doc, t) + FieldMentions(doc, fields[..k])
        {
          ok := Scan(fields[k].value);
          if !ok {
            return;
          }
          assert fields[..k + 1][..k] == fields[..k];
        }
        assert fields[..|fields|] == fields;
        ok := true;
      case List(items) =>
        for k := 0 to |items|
          invariant forall j :: 0 <= j < k ==> !Stops(doc, items[j])
          invariant found == old(found) + ItemMentions(doc, items[..k])
        {
          ok := Scan(items[k]);
          if !ok {
            return;
          }
          assert items[..k + 1][..k] == items[..k];
        }
        assert items[..|items|] == items;
        ok := true;
      case _ =>
        ok := true;
    }

    method ScanChildren(children: seq<int>) returns (ok: bool)
      modifies this`found
      ensures ok <==> forall c :: c in children ==> !ChildStops(doc, c)
      ensures ok ==> found == old(found) + ChildrenMentions(doc, children)
    {
      hide Stops, Mentions;
      for k := 0 to |children|
        invariant forall j :: 0 <= j < k ==> !ChildStops(doc, children[j])
        invariant found == old(found) + ChildrenMentions(doc, children[..k])
      {
        var c := children[k];
        if c in doc.idx && (doc.idx[c].visibility == "public" || doc.idx[c].visibility == "default") {
          ok := Scan(Inner(doc.idx[c]));
          if !ok {
            assert c in children && ChildStops(doc, c);
            return;
          }
        }
        assert children[..k + 1][..k] == children[..k];
      }
      assert children[..|children|] == children;
      ok := true;
    }

    method ScanMethods(ofTrait: bool, methods: seq<int>) returns (ok: bool)
      modifies this`found
      ensures ok <==> forall m :: m in methods ==> !MethodStops(doc, ofTrait, m)
      ensures ok ==> found == old(found) + MethodsMentions(doc, ofTrait, methods)
    {
      hide Stops, Mentions;
      for k := 0 to |methods|
        invariant forall j :: 0 <= j < k ==> !MethodStops(doc, ofTrait, methods[j])
        invariant found == old(found) + MethodsMentions(doc, ofTrait, methods[..k])
      {
        var m := methods[k];
        if m !in doc.idx {
          assert m in methods && MethodStops(doc, ofTrait, m);
          return false;
        }
        if ofTrait || doc.idx[m].visibility == "public" {
          ok := Scan(Inner(doc.idx[m]));
          if !ok {
            assert m in methods && MethodStops(doc, ofTrait, m);
            return;
          }
        }
        assert methods[..k + 1][..k] == methods[..k];
      }
      assert methods[..|methods|] == methods;
      ok := true;
    }

    method ScanImpl(im: int) returns (ok: bool)
      modifies this`found
      ensures ok <==> !ImplStops(doc, im)
      ensures ok ==> found == old(found) + ImplMentions(doc, im)
    {
      hide Stops, Mentions, MethodStops, MethodsMentions;
      var ib := ImplBody(doc, im);
      if !ib.Dict? {
        return false;
      }
      if Truthy(Key(ib, "is_synthetic")) || Truthy(Key(ib, "blanket_impl")) {
        return true;
      }
      ok := Scan(Key(ib, "generics"));
      if !ok {
        return;
      }
      var tr := Key(ib, "trait");
      if TraitStops(doc, tr) {
        return false;
      }
      found := found + TraitCrate(doc, tr);
      if !Has(ib, "items") {
        return false;
      }
      ok := ScanMethods(Truthy(tr), Ids(Key(ib, "items")));
    }

    method ScanImpls(impls: seq<int>) returns (ok: bool)
      modifies this`found
      ensures ok <==> forall im :: im in impls ==> !ImplStops(doc, im)
      ensures ok ==> found == old(found) + ImplsMentions(doc, impls)
    {
      hide ImplMentions, ImplStops;
      for k := 0 to |impls|
        invariant forall j :: 0 <= j < k ==> !ImplStops(doc, impls[j])
        invariant found == old(found) + ImplsMentions(doc, impls[..k])
      {
        ok := ScanImpl(impls[k]);
        if !ok {
          return;
        }
        assert impls[..k + 1][..k] == impls[..k];
      }
      assert impls[..|impls|] == impls;
      ok := true;
    }

    method ScanPublic(body: Json) returns (ok: bool)
      requires body.Dict?
      modifies this`found
      ensures ok <==> !PublicStops(doc, body)
      ensures ok ==> found == old(found) + PublicMentions(doc, body)
    {
      hide Stops, Mentions, ChildStops, ChildrenMentions, ImplStops, ImplsMentions, Children, Without;
      ok := Scan(Dict(Without(body.fields, ELSEWHERE)));
      if ok {
        ok := ScanChildren(Children(body));
      }
      if ok {
        ok := ScanImpls(Ids(Key(body, "impls")));
      }
    }

    /** Visit `i` and whatever is behind it. Everything new is reachable from `i`, and of
        everything new nothing behind it is left out; a cycle ends at an item already seen.
        The visit stops only at a reachable item that stops the script. */
    method Visit(i: int) returns (ok: bool)
      requires Valid()
      modifies this
      ensures old(seen) <= seen && i in seen
      ensures ok ==> Valid()
      ensures ok ==> forall v :: v in seen - old(seen) ==> Reachable(doc, i, v) && !LocalStops(doc, v)
      ensures ok ==> forall v, w :: v in seen - old(seen) && w in Next(doc, v) ==> w in seen
      ensures !ok ==> exists v :: Reachable(doc, i, v) && LocalStops(doc, v)
      decreases doc.idx.Keys - seen, 0
    {
      hide Contributions, PublicItems, Reachable, PublicMentions, PublicStops, CrateStops, CrateOf, Has;
      if i in seen {
        return true;
      }
      VisitOne(doc, seen, i);
      ReachSelf(doc, i);
      seen := seen + {i};
      if i !in doc.idx {
        if CrateStops(doc, i) {
          return false;
        }
        found := found + CrateOf(doc, i);
        return true;
      }
      var item := doc.idx[i];
      if !item.body.Dict? {
        return true;
      }
      if item.kind == "module" {
        if !Has(item.body, "items") {
          return false;
        }
        ok := VisitAll(i, Ids(Key(item.body, "items")));
        return;
      }
      if item.kind == "use" {
        var target := UseTarget(item);
        if target.None? {
          return true;
        }
        if target.value !in doc.idx {
          if CrateStops(doc, target.value) {
            return false;
          }
          found := found + CrateOf(doc, target.value);
          return true;
        }
        ok := VisitAll(i, [target.value]);
        return;
      }
      if item.visibility != "public" {
        return true;
      }
      publicItems := publicItems + 1;
      ok := ScanPublic(item.body);
    }

    /** Visit what is behind `i`, which has just been seen. */
    method VisitAll(i: int, next: seq<int>) returns (ok: bool)
      requires Valid() && i in seen && i in doc.idx && next == Next(doc, i)
      modifies this
      ensures old(seen) <= seen
      ensures ok ==> Valid() && forall w :: w in next ==> w in seen
      ensures ok ==> forall v :: v in seen - old(seen) ==> Reachable(doc, i, v) && !LocalStops(doc, v)
      ensures ok ==> forall v, w :: v in seen - old(seen) && w in Next(doc, v) ==> w in seen
      ensures !ok ==> exists v :: Reachable(doc, i, v) && LocalStops(doc, v)
      decreases doc.idx.Keys - seen, 1
    {
      hide Contributions, PublicItems, Reachable, Next, LocalStops;
      for k := 0 to |next|
        invariant Valid() && old(seen) <= seen
        invariant forall j :: 0 <= j < k ==> next[j] in seen
        invariant forall v :: v in seen - old(seen) ==> Reachable(doc, i, v) && !LocalStops(doc, v)
        invariant forall v, w :: v in seen - old(seen) && w in Next(doc, v) ==> w in seen
      {
        ghost var before := seen;
        assert doc.idx.Keys - seen <= doc.idx.Keys - old(seen);
        ok := Visit(next[k]);
        if !ok {
          ghost var v :| Reachable(doc, next[k], v) && LocalStops(doc, v);
          ReachStep(doc, i, next[k], v);
          return;
        }
        forall v | v in seen - before
          ensures Reachable(doc, i, v)
        {
          ReachStep(doc, i, next[k], v);
        }
      }
      ok := true;
    }
  }

  datatype Failure = Stopped | EmptyApi

  /** The crates the public API reaches: exactly the union of what the items reachable from
      the root contribute, without the standard ones. `items` counts the reachable public
      items, and an API with none is refused. The script stops with an error if and only if
      some reachable item refers to something that is not there. */
  method ExposedCrates(doc: Doc) returns (r: Result<set<string>, Failure>, items: nat, ghost visited: set<int>)
    ensures r == Err(Stopped) <==> exists v :: Reachable(doc, doc.root, v) && LocalStops(doc, v)
    ensures r != Err(Stopped) ==> forall v :: v in visited <==> Reachable(doc, doc.root, v)
    ensures r != Err(Stopped) ==> items == |PublicItems(doc, visited)|
    ensures r != Err(Stopped) ==> (r.Err? <==> forall v :: Reachable(doc, doc.root, v) ==> !IsPublicItem(doc, v))
    ensures forall v :: v in PublicItems(doc, visited) <==>
              && v in visited && v in doc.idx && doc.idx[v].body.Dict? && doc.idx[v].visibility == "public"
              && doc.idx[v].kind !in {"module", "use"}
    ensures r.Ok? ==> forall c :: c in r.value <==>
                                  && c !in {"std", "core", "alloc", "proc_macro", "test"}
                                  && exists v :: Reachable(doc, doc.root, v) && c in Local(doc, v)
  {
    hide Reachable, Next, Local, LocalStops;
    var w := new Walker(doc);
    var ok := w.Visit(doc.root);
    visited, items := w.seen, w.publicItems;
    if !ok {
      return Err(Stopped), items, visited;
    }
    forall v | Reachable(doc, doc.root, v)
      ensures v in visited
    {
      ClosedHoldsReachable(doc, visited, doc.root, v);
    }
    assert forall v :: v in visited ==> (IsPublicItem(doc, v) <==> v in PublicItems(doc, visited));
    if items > 0 {
      ghost var v :| v in PublicItems(doc, visited);
      assert Reachable(doc, doc.root, v);
    }
    if w.publicItems == 0 {
      r := Err(EmptyApi);
    } else {
      r := Ok(w.found - STD);
    }
  }

  lemma ClosedHoldsReachable(doc: Doc, s: set<int>, from: int, to: int)
    requires from in s && forall v, w :: v in s && w in Next(doc, v) ==> w in s
    requires Reachable(doc, from, to)
    ensures to in s
  {
    var p :| IsPath(doc, from, to, p);
    ClosedHoldsPath(doc, s, from, to, p);
  }
}
