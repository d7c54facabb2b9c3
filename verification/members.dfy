/** The `members` column of a relation row, in its two storage forms: the
    flattened `text[]` of the legacy schema (`n12`, `outer`, `w7`, `inner`,
    ...) and the jsonb array of `{type, ref, role}` objects of the newer
    schema. The closure reads each member as a child id of some kind; the
    serializer decodes each into the attributes of a `<member>` element. */
module Members {
  import opened Wrappers
  import opened Text

  datatype Kind = Node | Way | Relation

  /** The `type` attribute of a `<member>` element. */
  function KindName(k: Kind): string {
    match k
    case Node => "node"
    case Way => "way"
    case Relation => "relation"
  }

  /** The prefix letter of a member in the `text[]` form. */
  function LegacyLetter(k: Kind): char {
    match k
    case Node => 'n'
    case Way => 'w'
    case Relation => 'r'
  }

  /** The `type` value of a member object in the jsonb form. */
  function JsonbType(k: Kind): string {
    match k
    case Node => "N"
    case Way => "W"
    case Relation => "R"
  }

  /** The lookup `{'n': .., 'w': .., 'r': ..}[c]`. */
  function KindOfLetter(c: char): (r: Option<Kind>)
    ensures r.Some? <==> c == 'n' || c == 'w' || c == 'r'
    ensures r.Some? ==> LegacyLetter(r.value) == c
  {
    if c == 'n' then Some(Node) else if c == 'w' then Some(Way) else if c == 'r' then Some(Relation) else None
  }

  /** The lookup `{'N': .., 'W': .., 'R': ..}[t]`. */
  function KindOfJsonbType(t: string): (r: Option<Kind>)
    ensures r.Some? <==> t == "N" || t == "W" || t == "R"
    ensures r.Some? ==> JsonbType(r.value) == t
  {
    if t == "N" then Some(Node) else if t == "W" then Some(Way) else if t == "R" then Some(Relation) else None
  }

  /** A member as OpenStreetMap defines it. */
  datatype Member = Member(kind: Kind, id: int, role: string)

  /** One object of the jsonb `members` array. */
  datatype JMember = JMember(typ: string, ref: int, role: string)

  /** The attributes of one `<member>` element. */
  datatype XmlMember = XmlMember(kind: Kind, ref: string, role: string)

  /** A child id the closure takes from a member. */
  datatype Child = Child(kind: Kind, id: int)

  /** The `<member>` element of a member. */
  function ToXml(m: Member): XmlMember {
    XmlMember(m.kind, IntToString(m.id), m.role)
  }

  /** The `text[]` token of a member: its type letter, then its id. */
  function Token(m: Member): string {
    [LegacyLetter(m.kind)] + IntToString(m.id)
  }

  /** The flattened `text[]` form of a member list: each member's token
      followed by its role. */
  function EncodeLegacy(ms: seq<Member>): (r: seq<string>)
    ensures |r| == 2 * |ms|
    ensures forall j :: 0 <= j < |ms| ==> r[2 * j] == Token(ms[j]) && r[2 * j + 1] == ms[j].role
  {
    var r := seq(2 * |ms|, i requires 0 <= i < 2 * |ms| => if i % 2 == 0 then Token(ms[i / 2]) else ms[i / 2].role);
    assert forall j :: 0 <= j < |ms| ==> r[2 * j] == Token(ms[j]) && r[2 * j + 1] == ms[j].role by {
      forall j | 0 <= j < |ms|
        ensures r[2 * j] == Token(ms[j]) && r[2 * j + 1] == ms[j].role
      {
        Halves(j);
      }
    }
    r
  }

  /** Index `2 * j` is even and `2 * j + 1` odd, both halving to `j`. */
  lemma Halves(j: nat)
    ensures (2 * j) % 2 == 0 && (2 * j) / 2 == j
    ensures (2 * j + 1) % 2 == 1 && (2 * j + 1) / 2 == j
  {
  }

  /** The jsonb form of a member list. */
  function EncodeJsonb(ms: seq<Member>): (r: seq<JMember>)
    ensures |r| == |ms|
    ensures forall j :: 0 <= j < |ms| ==> r[j] == JMember(JsonbType(ms[j].kind), ms[j].id, ms[j].role)
  {
    seq(|ms|, j requires 0 <= j < |ms| => JMember(JsonbType(ms[j].kind), ms[j].id, ms[j].role))
  }

  // ---------------------------------------------------------------------
  // Classification, as the closure reads members (`rels_children_nwr`)
  // ---------------------------------------------------------------------

  /** One `text[]` token read as a child: `ms[i][0]` (an `IndexError` on the
      empty token), then `int(ms[i][1:])` (a `ValueError`), and only then the
      type letter (a `ValueError` for any other letter). */
  function ClassifyToken(tok: string): (r: Result<Child>)
    ensures |tok| == 0 ==> r == Failure(IndexError)
    ensures |tok| > 0 && ParseInt(tok[1..]).None? ==> r.Failure? && r.error.ValueError?
    ensures r.Success? <==> |tok| > 0 && KindOfLetter(tok[0]).Some? && ParseInt(tok[1..]).Some?
    ensures r.Success? ==> LegacyLetter(r.value.kind) == tok[0] && ParseInt(tok[1..]) == Some(r.value.id)
  {
    if |tok| == 0 then Failure(IndexError)
    else match ParseInt(tok[1..])
      case None => Failure(ValueError("invalid literal for int()"))
      case Some(id) =>
        match KindOfLetter(tok[0])
        case None => Failure(ValueError("invalid members[] element"))
        case Some(k) => Success(Child(k, id))
  }

  /** The tokens at indices 0, 2, 4, ...: `range(0, len(ms), 2)`, which
      includes a trailing token that has no role after it. */
  function EvenTokens(ms: seq<string>): (r: seq<string>)
    ensures |r| == (|ms| + 1) / 2
    ensures forall j :: 0 <= j < |r| ==> r[j] == ms[2 * j]
  {
    seq((|ms| + 1) / 2, j requires 0 <= j < (|ms| + 1) / 2 => ms[2 * j])
  }

  /** The classification of every member of a `text[]` list, in order. */
  function LegacyChildren(ms: seq<string>): (r: seq<Result<Child>>)
    ensures |r| == (|ms| + 1) / 2
    ensures forall j :: 0 <= j < |r| ==> r[j] == ClassifyToken(ms[2 * j])
  {
    var toks := EvenTokens(ms);
    seq(|toks|, j requires 0 <= j < |toks| => ClassifyToken(toks[j]))
  }

  /** One jsonb member read as a child; any type but `N`, `W`, `R` is a
      `ValueError`. */
  function ClassifyJsonb(m: JMember): (r: Result<Child>)
    ensures r.Success? <==> KindOfJsonbType(m.typ).Some?
    ensures r.Success? ==> JsonbType(r.value.kind) == m.typ && r.value.id == m.ref
    ensures r.Failure? ==> r.error.ValueError?
  {
    match KindOfJsonbType(m.typ)
    case None => Failure(ValueError("invalid members[] element"))
    case Some(k) => Success(Child(k, m.ref))
  }

  /** The classification of every member of a jsonb list, in order. */
  function JsonbChildren(ms: seq<JMember>): (r: seq<Result<Child>>)
    ensures |r| == |ms|
    ensures forall j :: 0 <= j < |r| ==> r[j] == ClassifyJsonb(ms[j])
  {
    seq(|ms|, j requires 0 <= j < |ms| => ClassifyJsonb(ms[j]))
  }

  // ---------------------------------------------------------------------
  // Decoding, as the serializer writes members (`rel_to_xml`)
  // ---------------------------------------------------------------------

  /** The `(type token, role)` pairs `next(m)` reads two at a time; a
      lone trailing token is dropped when the second `next` stops the
      iteration. */
  function Pairs(ms: seq<string>): (r: seq<(string, string)>)
    ensures 2 * |r| <= |ms| < 2 * |r| + 2
    ensures forall j :: 0 <= j < |r| ==> r[j] == (ms[2 * j], ms[2 * j + 1])
  {
    seq(|ms| / 2, j requires 0 <= j < |ms| / 2 => (ms[2 * j], ms[2 * j + 1]))
  }

  /** The pairs decoded in order: an empty type token is an `IndexError`,
      an unknown letter a `KeyError`; the `ref` is the token after its
      letter, not parsed. */
  function DecodePairs(ps: seq<(string, string)>): (r: Result<seq<XmlMember>>)
    ensures r.Success? ==> |r.value| == |ps| && forall j :: 0 <= j < |ps| ==>
      |ps[j].0| > 0 && LegacyLetter(r.value[j].kind) == ps[j].0[0]
      && r.value[j].ref == ps[j].0[1..] && r.value[j].role == ps[j].1
    ensures r.Failure? <==> exists j :: 0 <= j < |ps| && (|ps[j].0| == 0 || KindOfLetter(ps[j].0[0]).None?)
    decreases |ps|
  {
    if |ps| == 0 then Success([])
    else if |ps[0].0| == 0 then Failure(IndexError)
    else
      match KindOfLetter(ps[0].0[0])
      case None => Failure(KeyError([ps[0].0[0]]))
      case Some(k) =>
        var rest := DecodePairs(ps[1..]);
        if rest.Failure? then
          var j :| 0 <= j < |ps[1..]| && (|ps[1..][j].0| == 0 || KindOfLetter(ps[1..][j].0[0]).None?);
          assert ps[1..][j] == ps[j + 1];
          Failure(rest.error)
        else
          var r := [XmlMember(k, ps[0].0[1..], ps[0].1)] + rest.value;
          assert forall j :: 1 <= j < |ps| ==> ps[1..][j - 1] == ps[j];
          assert forall j :: 1 <= j < |r| ==> r[j] == rest.value[j - 1];
          Success(r)
  }

  /** The `text[]` list decoded pairwise into `<member>` elements
      (`osm_type`, `id` and `role` in the relation serializer). */
  function DecodeLegacy(ms: seq<string>): (r: Result<seq<XmlMember>>)
    ensures r.Success? ==> 2 * |r.value| <= |ms| < 2 * |r.value| + 2
    ensures r.Success? ==> forall j :: 0 <= j && 2 * j + 1 < |ms| ==>
      |ms[2 * j]| > 0 && LegacyLetter(r.value[j].kind) == ms[2 * j][0]
      && r.value[j].ref == ms[2 * j][1..] && r.value[j].role == ms[2 * j + 1]
    ensures r.Failure? <==> exists j :: 0 <= j && 2 * j + 1 < |ms| && (|ms[2 * j]| == 0 || KindOfLetter(ms[2 * j][0]).None?)
  {
    var ps := Pairs(ms);
    var r := DecodePairs(ps);
    if r.Failure? then
      var j :| 0 <= j < |ps| && (|ps[j].0| == 0 || KindOfLetter(ps[j].0[0]).None?);
      assert ps[j].0 == ms[2 * j];
      r
    else
      assert forall j :: 0 <= j && 2 * j + 1 < |ms| ==> ps[j].0 == ms[2 * j] && ps[j].1 == ms[2 * j + 1];
      r
  }

  /** Dropping the first two tokens drops the first pair. */
  lemma PairsTail(ms: seq<string>)
    requires |ms| >= 2
    ensures Pairs(ms[2..]) == Pairs(ms)[1..]
  {
    var a := Pairs(ms[2..]);
    var b := Pairs(ms)[1..];
    assert |a| == |b|;
    forall j | 0 <= j < |a|
      ensures a[j] == b[j]
    {
      assert ms[2..][2 * j] == ms[2 * (j + 1)];
      assert ms[2..][2 * j + 1] == ms[2 * (j + 1) + 1];
    }
  }

  /** The jsonb list decoded: an unknown `type` is a `KeyError`, and the
      `ref` is the decimal of the number. */
  function DecodeJsonb(ms: seq<JMember>): (r: Result<seq<XmlMember>>)
    ensures r.Success? <==> forall j :: 0 <= j < |ms| ==> KindOfJsonbType(ms[j].typ).Some?
    ensures r.Success? ==> |r.value| == |ms| && forall j :: 0 <= j < |ms| ==>
      JsonbType(r.value[j].kind) == ms[j].typ && r.value[j].ref == IntToString(ms[j].ref) && r.value[j].role == ms[j].role
    ensures r.Failure? ==> r.error.KeyError?
    decreases |ms|
  {
    if |ms| == 0 then Success([])
    else
      match KindOfJsonbType(ms[0].typ)
      case None => Failure(KeyError(ms[0].typ))
      case Some(k) =>
        var rest := DecodeJsonb(ms[1..]);
        if rest.Failure? then
          assert !KindOfJsonbType(ms[1..][FirstJsonbUnknown(ms[1..])].typ).Some?;
          Failure(rest.error)
        else
          var r := [XmlMember(k, IntToString(ms[0].ref), ms[0].role)] + rest.value;
          assert forall j :: 1 <= j < |ms| ==> ms[1..][j - 1] == ms[j];
          assert forall j :: 1 <= j < |r| ==> r[j] == rest.value[j - 1];
          Success(r)
  }

  /** The first jsonb member with an unknown type. */
  function FirstJsonbUnknown(ms: seq<JMember>): (j: nat)
    requires exists j :: 0 <= j < |ms| && KindOfJsonbType(ms[j].typ).None?
    ensures j < |ms| && KindOfJsonbType(ms[j].typ).None?
  {
    if KindOfJsonbType(ms[0].typ).None? then 0
    else
      assert exists j :: 0 <= j < |ms[1..]| && KindOfJsonbType(ms[1..][j].typ).None? by {
        var j :| 0 <= j < |ms| && KindOfJsonbType(ms[j].typ).None?;
        assert ms[1..][j - 1] == ms[j];
      }
      1 + FirstJsonbUnknown(ms[1..])
  }

  // ---------------------------------------------------------------------
  // Round trips and agreement
  // ---------------------------------------------------------------------

  lemma LetterRoundTrip(k: Kind)
    ensures KindOfLetter(LegacyLetter(k)) == Some(k)
    ensures KindOfJsonbType(JsonbType(k)) == Some(k)
  {
  }

  /** The pair an encoded member becomes: its type letter and id, then
      its role. */
  lemma EncodedPair(ms: seq<Member>, j: nat)
    requires j < |ms|
    ensures |EncodeLegacy(ms)[2 * j]| > 0
    ensures KindOfLetter(EncodeLegacy(ms)[2 * j][0]) == Some(ms[j].kind)
    ensures EncodeLegacy(ms)[2 * j][1..] == IntToString(ms[j].id)
    ensures EncodeLegacy(ms)[2 * j + 1] == ms[j].role
  {
    LetterRoundTrip(ms[j].kind);
    var tok := EncodeLegacy(ms)[2 * j];
    assert tok[0] == LegacyLetter(ms[j].kind);
    assert tok[1..] == IntToString(ms[j].id);
  }

  /** Decoding the `text[]` form of a member list gives each member's
      element, in order. */
  lemma DecodeEncodeLegacy(ms: seq<Member>)
    ensures DecodeLegacy(EncodeLegacy(ms)) == Success(seq(|ms|, j requires 0 <= j < |ms| => ToXml(ms[j])))
  {
    var enc := EncodeLegacy(ms);
    var xs := seq(|ms|, j requires 0 <= j < |ms| => ToXml(ms[j]));
    EncodingDecodes(ms);
    var r := DecodeLegacy(enc).value;
    forall j | 0 <= j < |ms|
      ensures r[j] == xs[j]
    {
      DecodedAt(ms, j);
    }
    assert r == xs;
  }

  /** One member of a decoded encoding is the member's element. */
  lemma DecodedAt(ms: seq<Member>, j: nat)
    requires j < |ms| && DecodeLegacy(EncodeLegacy(ms)).Success?
    ensures DecodeLegacy(EncodeLegacy(ms)).value[j] == ToXml(ms[j])
  {
    DecodedMember(EncodeLegacy(ms), j, ToXml(ms[j]));
  }

  /** The `text[]` form of any member list decodes without error. */
  lemma EncodingDecodes(ms: seq<Member>)
    ensures DecodeLegacy(EncodeLegacy(ms)).Success?
  {
    var enc := EncodeLegacy(ms);
    forall j | 0 <= j < |ms|
      ensures !(|enc[2 * j]| == 0 || KindOfLetter(enc[2 * j][0]).None?)
    {
      EncodedPair(ms, j);
    }
  }

  /** A pair spelling a kind, a reference and a role decodes to that
      `<member>` element. */
  lemma DecodedMember(toks: seq<string>, j: nat, x: XmlMember)
    requires DecodeLegacy(toks).Success? && 2 * j + 1 < |toks|
    requires toks[2 * j] == [LegacyLetter(x.kind)] + x.ref && toks[2 * j + 1] == x.role
    ensures DecodeLegacy(toks).value[j] == x
  {
    var y := DecodeLegacy(toks).value[j];
    assert LegacyLetter(y.kind) == toks[2 * j][0];
    assert y.ref == toks[2 * j][1..];
    LetterRoundTrip(y.kind);
    LetterRoundTrip(x.kind);
  }

  /** Decoding the jsonb form of a member list gives the same elements. */
  lemma DecodeEncodeJsonb(ms: seq<Member>)
    ensures DecodeJsonb(EncodeJsonb(ms)) == Success(seq(|ms|, j requires 0 <= j < |ms| => ToXml(ms[j])))
  {
    var enc := EncodeJsonb(ms);
    forall j | 0 <= j < |ms|
      ensures KindOfJsonbType(enc[j].typ) == Some(ms[j].kind)
    {
      LetterRoundTrip(ms[j].kind);
    }
    var r := DecodeJsonb(enc);
    assert r.Success?;
    var xs := seq(|ms|, j requires 0 <= j < |ms| => ToXml(ms[j]));
    forall j | 0 <= j < |ms|
      ensures r.value[j] == xs[j]
    {
      LetterRoundTrip(r.value[j].kind);
    }
    assert r.value == xs;
  }

  /** The closure reads back exactly the kinds and ids of an encoded list. */
  lemma LegacyChildrenOfEncoding(ms: seq<Member>)
    ensures LegacyChildren(EncodeLegacy(ms)) == seq(|ms|, j requires 0 <= j < |ms| => Success(Child(ms[j].kind, ms[j].id)))
  {
    var enc := EncodeLegacy(ms);
    var lhs := LegacyChildren(enc);
    var rhs := seq(|ms|, j requires 0 <= j < |ms| => Success(Child(ms[j].kind, ms[j].id)));
    forall j | 0 <= j < |ms|
      ensures lhs[j] == rhs[j]
    {
      EncodedPair(ms, j);
      ParseIntToString(ms[j].id);
    }
    assert |lhs| == |rhs|;
  }

  /** The closure and the serializer agree on every member both accept: the
      same kind, and the id the closure adds is the integer the `ref`
      attribute spells. */
  lemma ClassifyAgreesWithDecode(ms: seq<string>, j: nat)
    requires 2 * j + 1 < |ms|
    requires DecodeLegacy(ms).Success? && ClassifyToken(ms[2 * j]).Success?
    ensures DecodeLegacy(ms).value[j].kind == ClassifyToken(ms[2 * j]).value.kind
    ensures ParseInt(DecodeLegacy(ms).value[j].ref) == Some(ClassifyToken(ms[2 * j]).value.id)
  {
    var x := DecodeLegacy(ms).value[j];
    var c := ClassifyToken(ms[2 * j]).value;
    assert LegacyLetter(x.kind) == LegacyLetter(c.kind);
  }
}
