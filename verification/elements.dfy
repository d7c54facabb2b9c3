/** The elements the extract writes (`node_to_xml`, `way_to_xml`,
    `rel_to_xml`) and the tag collapsing the row loops do before calling
    them. An element is kept as its attributes and children; writing it
    out as XML text is left to the writer. */
module Elements {
  import opened Wrappers
  import opened Text
  import opened Members
  import opened Tags

  datatype Element =
    | NodeEl(attrs: Dict, tags: Dict)                            // attributes id, lat, lon in row order
    | WayEl(id: Value, nds: seq<int>, tags: Dict)
    | RelationEl(id: Value, members: seq<XmlMember>, tags: Dict)

  /** `tags = row.pop('json_tags') if 'json_tags' in row else {}`, then
      `tags = {**tags, **row.pop('json_tags2')} if 'json_tags2' in row else tags`.
      A tag column that is not a json object cannot be merged. */
  function CollapseTags(row: Dict): (r: Result<(Dict, Dict)>)
    requires UniqueKeys(row)
    ensures r.Success? <==>
      (forall v :: Lookup(row, "json_tags") == Some(v) ==> v.Object?) &&
      (forall v :: Lookup(row, "json_tags2") == Some(v) ==> v.Object?)
    ensures r.Success? ==> !HasKey(r.value.0, "json_tags") && !HasKey(r.value.0, "json_tags2")
    ensures r.Success? ==> forall k :: k != "json_tags" && k != "json_tags2" ==> Lookup(r.value.0, k) == Lookup(row, k)
    ensures r.Success? ==> forall k ::
      var t1 := Lookup(row, "json_tags");
      var t2 := Lookup(row, "json_tags2");
      UniqueKeys(if t2.Some? then t2.value.entries else []) ==>
      Lookup(r.value.1, k) ==
        if t2.Some? && Lookup(t2.value.entries, k).Some? then Lookup(t2.value.entries, k)
        else if t1.Some? then Lookup(t1.value.entries, k)
        else None
  {
    var (row1, tags1) :=
      match Pop(row, "json_tags")
      case None => (row, Object([]))
      case Some((v, rest)) => (rest, v);
    if !tags1.Object? then Failure(TypeError("json_tags is not a mapping"))
    else
      match Pop(row1, "json_tags2")
      case None => Success((row1, tags1.entries))
      case Some((v, rest)) =>
        if !v.Object? then Failure(TypeError("json_tags2 is not a mapping"))
        else Success((rest, Merge(tags1.entries, v.entries)))
  }

  /** The value a key's `<tag>` carries when an element with attribute keys
      `attrKeys` is built from `row` and `tags`: the tag dict's value, else
      the row's value for a key that is not an attribute. */
  function EmittedTag(tags: Dict, row: Dict, attrKeys: set<string>, k: string): Option<Value> {
    if Lookup(tags, k).Some? then Lookup(tags, k)
    else if k in attrKeys then None
    else Lookup(row, k)
  }

  /** Emitting a row's column tags after the tag dict gives every key its
      `EmittedTag` value. */
  lemma EmitSplit(tags: Dict, row: Dict, attrKeys: set<string>)
    ensures forall k :: Lookup(EmitTags(tags, SplitTagsOut(row, attrKeys).1), k) == EmittedTag(tags, row, attrKeys, k)
  {
  }

  /** `str(attrs['id'])` as an attribute: an integer id becomes its decimal;
      a string id stays as it is. */
  function IdAttr(v: Value): (r: Value)
    ensures v.Int? ==> r == Text(IntToString(v.i)) && ParseInt(r.s) == Some(v.i)
    ensures !v.Int? ==> r == v
  {
    if v.Int? then
      ParseIntToString(v.i);
      Text(IntToString(v.i))
    else v
  }

  /** `way_to_xml(row_dict, tags)`: `id` and `nodes` are attributes, the rest
      of the row are column tags; the `nd` refs follow the node list. */
  function WayToXml(row: Dict, tags: Dict): (r: Result<Element>)
    ensures r.Success? <==> HasKey(row, "id") && (forall v :: Lookup(row, "nodes") == Some(v) ==> v.IdArray?)
    ensures !HasKey(row, "id") ==> r == Failure(KeyError("id"))
    ensures r.Success? ==> r.value.WayEl? && Some(r.value.id) == Lookup(row, "id")
    ensures r.Success? ==> r.value.nds == if HasKey(row, "nodes") then Lookup(row, "nodes").value.ids else []
    ensures r.Success? ==> UniqueKeys(r.value.tags)
    ensures r.Success? ==> forall k :: Lookup(r.value.tags, k) == EmittedTag(tags, row, {"id", "nodes"}, k)
  {
    var emitted := EmitTags(tags, SplitTagsOut(row, {"id", "nodes"}).1);
    EmitSplit(tags, row, {"id", "nodes"});
    assert UniqueKeys(emitted);
    assert forall k :: Lookup(emitted, k) == EmittedTag(tags, row, {"id", "nodes"}, k);
    match Lookup(row, "id")
    case None => Failure(KeyError("id"))
    case Some(id) =>
      match Lookup(row, "nodes")
      case None => Success(WayEl(id, [], emitted))
      case Some(nodes) =>
        if nodes.IdArray? then Success(WayEl(id, nodes.ids, emitted))
        else Failure(TypeError("nodes is not an id list"))
  }

  /** Replacing the `id` attribute keeps `lat` and `lon` as the row has them. */
  lemma NodeAttrsKept(row: Dict, v: Value)
    ensures forall k :: k != "id" ==> Lookup(Put(SplitTagsOut(row, {"id", "lat", "lon"}).0, "id", v), k) == (if k in {"lat", "lon"} then Lookup(row, k) else None)
  {
    forall k | k != "id"
      ensures Lookup(Put(SplitTagsOut(row, {"id", "lat", "lon"}).0, "id", v), k) == (if k in {"lat", "lon"} then Lookup(row, k) else None)
    {
      var attrs := SplitTagsOut(row, {"id", "lat", "lon"}).0;
      assert Lookup(Put(attrs, "id", v), k) == Lookup(attrs, k);
      CoordAttr(row, k);
    }
  }

  lemma CoordAttr(row: Dict, k: string)
    requires k != "id"
    ensures Lookup(SplitTagsOut(row, {"id", "lat", "lon"}).0, k) == (if k in {"lat", "lon"} then Lookup(row, k) else None)
  {
    var keep: set<string> := {"id", "lat", "lon"};
    assert Lookup(SplitTagsOut(row, keep).0, k) == if k in keep then Lookup(row, k) else None;
    CoordKeys(k);
  }

  lemma CoordKeys(k: string)
    requires k != "id"
    ensures (k in {"id", "lat", "lon"}) == (k in {"lat", "lon"})
  {
  }

  /** `node_to_xml(row_dict, tags)`: `id`, `lat` and `lon` are attributes,
      with `id` turned into a string; the rest are column tags. */
  function NodeToXml(row: Dict, tags: Dict): (r: Result<Element>)
    ensures r.Success? <==> HasKey(row, "id")
    ensures r.Success? ==> r.value.NodeEl?
    ensures r.Success? ==> Lookup(r.value.attrs, "id") == Some(IdAttr(Lookup(row, "id").value))
    ensures r.Success? ==> forall k :: k != "id" ==> Lookup(r.value.attrs, k) == (if k in {"lat", "lon"} then Lookup(row, k) else None)
    ensures r.Success? ==> UniqueKeys(r.value.tags)
    ensures r.Success? ==> forall k :: Lookup(r.value.tags, k) == EmittedTag(tags, row, {"id", "lat", "lon"}, k)
  {
    var (attrs, colTags) := SplitTagsOut(row, {"id", "lat", "lon"});
    var emitted := EmitTags(tags, colTags);
    EmitSplit(tags, row, {"id", "lat", "lon"});
    match Lookup(attrs, "id")
    case None => Failure(KeyError("id"))
    case Some(id) =>
      var attrs' := Put(attrs, "id", IdAttr(id));
      NodeAttrsKept(row, IdAttr(id));
      Success(NodeEl(attrs', emitted))
  }

  /** The `<member>` children of a relation from its `members` value, in
      the dialect's form. */
  function DecodeMembers(v: Value, jsonb: bool): (r: Result<seq<XmlMember>>)
    ensures jsonb && v.MemberObjects? ==> r == DecodeJsonb(v.objs)
    ensures !jsonb && v.TextArray? ==> r == DecodeLegacy(v.items)
    ensures (if jsonb then !v.MemberObjects? else !v.TextArray?) ==> r.Failure? && r.error.TypeError?
  {
    if jsonb then
      if v.MemberObjects? then DecodeJsonb(v.objs) else Failure(TypeError("members is not a jsonb array"))
    else
      if v.TextArray? then DecodeLegacy(v.items) else Failure(TypeError("members is not a text array"))
  }

  /** The relation element up to its tags: `id` and `members` are
      attributes, the rest are column tags. */
  function RelationShell(row: Dict, jsonb: bool): (r: Result<(Value, seq<XmlMember>, Dict)>)
    ensures r.Success? ==> Some(r.value.0) == Lookup(row, "id")
    ensures !HasKey(row, "id") ==> r == Failure(KeyError("id"))
    ensures HasKey(row, "id") && !HasKey(row, "members") ==> r.Success? && r.value.1 == []
    ensures HasKey(row, "id") && HasKey(row, "members") ==>
      (r.Success? <==> DecodeMembers(Lookup(row, "members").value, jsonb).Success?)
    ensures r.Success? && HasKey(row, "members") ==> r.value.1 == DecodeMembers(Lookup(row, "members").value, jsonb).value
    ensures forall k :: r.Success? ==> Lookup(r.value.2, k) == if k in {"id", "members"} then None else Lookup(row, k)
  {
    var colTags := SplitTagsOut(row, {"id", "members"}).1;
    assert forall k :: Lookup(colTags, k) == if k in {"id", "members"} then None else Lookup(row, k);
    match Lookup(row, "id")
    case None => Failure(KeyError("id"))
    case Some(id) =>
      match Lookup(row, "members")
      case None => Success((id, [], colTags))
      case Some(ms) =>
        match DecodeMembers(ms, jsonb)
        case Failure(e) => Failure(e)
        case Success(members) => Success((id, members, colTags))
  }

  /** `rel_to_xml(row_dict, tags, new_jsonb_schema)` as written: the tag
      loop walks `tags` twice, so no column tag is emitted. */
  function RelToXmlAsWritten(row: Dict, tags: Dict, jsonb: bool): (r: Result<Element>)
    ensures r.Success? <==> RelationShell(row, jsonb).Success?
    ensures r.Success? ==> r.value.RelationEl? && Some(r.value.id) == Lookup(row, "id")
    ensures r.Success? ==> forall k :: Lookup(r.value.tags, k) == Lookup(tags, k)
  {
    match RelationShell(row, jsonb)
    case Failure(e) => Failure(e)
    case Success((id, members, colTags)) =>
      var emitted := RelTagsAsWritten(tags, colTags);
      assert forall k :: Lookup(emitted, k) == Lookup(tags, k) by {
        forall k ensures Lookup(emitted, k) == Lookup(tags, k) { LookupAppend(tags, tags, k); }
      }
      Success(RelationEl(id, members, emitted))
  }

  /** `rel_to_xml` with the tag loop walking `(tags, col_tags)` as the way
      and node loops do: column tags are emitted for the keys `tags` lacks. */
  function RelToXml(row: Dict, tags: Dict, jsonb: bool): (r: Result<Element>)
    ensures r.Success? <==> RelationShell(row, jsonb).Success?
    ensures r.Success? ==> r.value.RelationEl? && Some(r.value.id) == Lookup(row, "id")
    ensures r.Success? ==> UniqueKeys(r.value.tags)
    ensures r.Success? ==> forall k :: Lookup(r.value.tags, k) == EmittedTag(tags, row, {"id", "members"}, k)
  {
    match RelationShell(row, jsonb)
    case Failure(e) => Failure(e)
    case Success((id, members, colTags)) => Success(RelationEl(id, members, EmitTags(tags, colTags)))
  }

  /** The two versions build the same relation with the same members; they
      differ only in that the written one drops a column tag the corrected
      one emits. */
  lemma RelToXmlDropsColumnTag(row: Dict, tags: Dict, jsonb: bool, k: string)
    requires RelationShell(row, jsonb).Success?
    requires !HasKey(tags, k) && k != "id" && k != "members" && HasKey(row, k)
    ensures RelToXmlAsWritten(row, tags, jsonb).value.members == RelToXml(row, tags, jsonb).value.members
    ensures Lookup(RelToXmlAsWritten(row, tags, jsonb).value.tags, k).None?
    ensures Lookup(RelToXml(row, tags, jsonb).value.tags, k) == Lookup(row, k) && Lookup(row, k).Some?
  {
  }

  /** A relation row whose members are stored in either form yields the
      `<member>` children of the original member list. */
  lemma RelationMembersRoundTrip(row: Dict, tags: Dict, jsonb: bool, ms: seq<Member>)
    requires HasKey(row, "id")
    requires Lookup(row, "members") == Some(if jsonb then MemberObjects(EncodeJsonb(ms)) else TextArray(EncodeLegacy(ms)))
    ensures RelToXml(row, tags, jsonb).Success?
    ensures RelToXml(row, tags, jsonb).value.members == seq(|ms|, j requires 0 <= j < |ms| => ToXml(ms[j]))
  {
    DecodeEncodeJsonb(ms);
    DecodeEncodeLegacy(ms);
  }
}
