/** The extension collection of the certificate generator (`x509/mod.rs`, `x509/extension.rs`): a
  * vector and a hash index into it, keeping one extension per type as section 4.2 of RFC 3280
  * demands. */
module Extensions {
  import opened Wrappers

  type Nid = int

  const KEY_USAGE: Nid := 83
  const SUBJECT_ALT_NAME: Nid := 85
  const ISSUER_ALT_NAME: Nid := 86
  const EXT_KEY_USAGE: Nid := 126

  datatype ExtensionType =
    | KeyUsageType
    | ExtKeyUsageType
    | SubjectAltNameType
    | IssuerAltNameType
    | OtherNidType(nid: Nid)
    | OtherStrType(oid: string)
  {
    function GetNid(): Option<Nid> {
      match this
      case KeyUsageType => Some(KEY_USAGE)
      case ExtKeyUsageType => Some(EXT_KEY_USAGE)
      case SubjectAltNameType => Some(SUBJECT_ALT_NAME)
      case IssuerAltNameType => Some(ISSUER_ALT_NAME)
      case OtherNidType(nid) => Some(nid)
      case OtherStrType(_) => None
    }
  }

  datatype Extension =
    | KeyUsage(usages: seq<string>)
    | ExtKeyUsage(usages: seq<string>)
    | SubjectAltName(names: seq<(string, string)>)
    | IssuerAltName(names: seq<(string, string)>)
    | OtherNid(nid: Nid, value: string)
    | OtherStr(oid: string, value: string)
  {
    function GetType(): ExtensionType {
      match this
      case KeyUsage(_) => KeyUsageType
      case ExtKeyUsage(_) => ExtKeyUsageType
      case SubjectAltName(_) => SubjectAltNameType
      case IssuerAltName(_) => IssuerAltNameType
      case OtherNid(nid, _) => OtherNidType(nid)
      case OtherStr(oid, _) => OtherStrType(oid)
    }
  }

  /** Two extensions have the same type exactly if they are of the same kind and, for the two open kinds, have
    * the same identifier; what they contain does not matter. */
  lemma TypeMeaning(a: Extension, b: Extension)
    ensures a.GetType() == b.GetType()
            <==> || (a.KeyUsage? && b.KeyUsage?)
                 || (a.ExtKeyUsage? && b.ExtKeyUsage?)
                 || (a.SubjectAltName? && b.SubjectAltName?)
                 || (a.IssuerAltName? && b.IssuerAltName?)
                 || (a.OtherNid? && b.OtherNid? && a.nid == b.nid)
                 || (a.OtherStr? && b.OtherStr? && a.oid == b.oid)
  {
  }

  /** The identifiers as OpenSSL numbers them; an extension given by its dotted name has none. */
  lemma NidNumbers(ext: Extension)
    ensures var nid := ext.GetType().GetNid();
            && (ext.KeyUsage? ==> nid == Some(83))
            && (ext.SubjectAltName? ==> nid == Some(85))
            && (ext.IssuerAltName? ==> nid == Some(86))
            && (ext.ExtKeyUsage? ==> nid == Some(126))
            && (ext.OtherNid? ==> nid == Some(ext.nid))
            && (ext.OtherStr? ==> nid == None)
  {
  }

  // ---------------------------------------------------------------- the ordered association list

  predicate HasType(exts: seq<Extension>, t: ExtensionType) {
    exists i :: 0 <= i < |exts| && exts[i].GetType() == t
  }

  /** The position of the first extension of this type. */
  function FirstIndex(exts: seq<Extension>, t: ExtensionType): (k: nat)
    requires HasType(exts, t)
    ensures k < |exts| && exts[k].GetType() == t
    ensures forall i :: 0 <= i < k ==> exts[i].GetType() != t
  {
    if exts[0].GetType() == t then 0
    else
      assert exists i :: 0 <= i < |exts[1..]| && exts[1..][i].GetType() == t by {
        var i :| 0 <= i < |exts| && exts[i].GetType() == t;
        assert exts[1..][i - 1] == exts[i];
      }
      var k := FirstIndex(exts[1..], t);
      assert forall i :: 1 <= i < k + 1 ==> exts[i] == exts[1..][i - 1];
      k + 1
  }

  function Upsert(exts: seq<Extension>, ext: Extension): seq<Extension> {
    if HasType(exts, ext.GetType()) then exts[FirstIndex(exts, ext.GetType()) := ext] else exts + [ext]
  }

  function AddAll(exts: seq<Extension>, adds: seq<Extension>): seq<Extension> {
    if adds == [] then exts else Upsert(AddAll(exts, adds[..|adds| - 1]), adds[|adds| - 1])
  }

  predicate OnePerType(exts: seq<Extension>) {
    forall i, j :: 0 <= i < j < |exts| ==> exts[i].GetType() != exts[j].GetType()
  }

  /** `ext` is the last extension of its type among `adds`. */
  predicate LastOfItsType(adds: seq<Extension>, ext: Extension) {
    exists k ::
      && 0 <= k < |adds| && adds[k] == ext
      && forall j :: k < j < |adds| ==> adds[j].GetType() != ext.GetType()
  }

  predicate SameTypes(exts: seq<Extension>, adds: seq<Extension>) {
    && (forall i :: 0 <= i < |adds| ==> HasType(exts, adds[i].GetType()))
    && (forall i :: 0 <= i < |exts| ==> HasType(adds, exts[i].GetType()))
  }

  predicate InInsertionOrder(exts: seq<Extension>, adds: seq<Extension>)
    requires SameTypes(exts, adds)
  {
    forall i, j :: 0 <= i < j < |exts| ==>
      FirstIndex(adds, exts[i].GetType()) < FirstIndex(adds, exts[j].GetType())
  }

  ghost predicate Collects(exts: seq<Extension>, adds: seq<Extension>) {
    && OnePerType(exts)
    && SameTypes(exts, adds)
    && InInsertionOrder(exts, adds)
    && forall i :: 0 <= i < |exts| ==> LastOfItsType(adds, exts[i])
  }

  lemma TypesOfLonger(adds: seq<Extension>, add: Extension, t: ExtensionType)
    ensures HasType(adds + [add], t) <==> HasType(adds, t) || add.GetType() == t
  {
    var more := adds + [add];
    if i :| 0 <= i < |adds| && adds[i].GetType() == t {
      assert more[i].GetType() == t;
    }
    assert more[|adds|] == add;
  }

  lemma FirstIndexOfLonger(adds: seq<Extension>, add: Extension, t: ExtensionType)
    ensures HasType(adds + [add], t) <==> HasType(adds, t) || add.GetType() == t
    ensures HasType(adds, t) ==> FirstIndex(adds + [add], t) == FirstIndex(adds, t)
    ensures !HasType(adds, t) && add.GetType() == t ==> FirstIndex(adds + [add], t) == |adds|
  {
    TypesOfLonger(adds, add, t);
    var more := adds + [add];
    if HasType(more, t) {
      var k := FirstIndex(more, t);
      assert forall i :: 0 <= i < |adds| ==> more[i] == adds[i];
      if HasType(adds, t) {
        var j := FirstIndex(adds, t);
        assert more[j].GetType() == t;
      }
    }
  }

  lemma LastOfLonger(adds: seq<Extension>, add: Extension, ext: Extension)
    requires ext == add || (LastOfItsType(adds, ext) && ext.GetType() != add.GetType())
    ensures LastOfItsType(adds + [add], ext)
  {
    var more := adds + [add];
    if ext == add {
      assert more[|adds|] == ext;
    } else {
      var k :| 0 <= k < |adds| && adds[k] == ext && forall j :: k < j < |adds| ==> adds[j].GetType() != ext.GetType();
      assert more[k] == ext;
    }
  }

  lemma UpsertTypes(exts: seq<Extension>, add: Extension)
    requires OnePerType(exts)
    ensures var r := Upsert(exts, add);
            && |exts| <= |r| <= |exts| + 1
            && (forall i :: 0 <= i < |exts| ==> r[i].GetType() == exts[i].GetType())
            && (forall i :: 0 <= i < |r| ==>
                  if r[i].GetType() == add.GetType() then r[i] == add else i < |exts| && r[i] == exts[i])
            && (|r| == |exts| + 1 <==> !HasType(exts, add.GetType()))
            && (|r| == |exts| + 1 ==> r[|exts|] == add)
            && OnePerType(r) && HasType(r, add.GetType())
  {
    var r := Upsert(exts, add);
    if !HasType(exts, add.GetType()) {
      assert r[|exts|] == add;
    }
  }

  lemma UpsertedElement(exts: seq<Extension>, adds: seq<Extension>, add: Extension, i: nat)
    requires Collects(exts, adds) && i < |Upsert(exts, add)|
    ensures var e := Upsert(exts, add)[i];
            && HasType(adds + [add], e.GetType())
            && LastOfItsType(adds + [add], e)
            && FirstIndex(adds + [add], e.GetType())
               == if i < |exts| then FirstIndex(adds, exts[i].GetType()) else |adds|
  {
    UpsertTypes(exts, add);
    var e := Upsert(exts, add)[i];
    FirstIndexOfLonger(adds, add, e.GetType());
    LastOfLonger(adds, add, e);
  }

  lemma UpsertedTypes(exts: seq<Extension>, adds: seq<Extension>, add: Extension, i: nat)
    requires Collects(exts, adds) && i < |adds + [add]|
    ensures HasType(Upsert(exts, add), (adds + [add])[i].GetType())
  {
    UpsertTypes(exts, add);
    if i < |adds| {
      assert HasType(exts, adds[i].GetType());
      var k := FirstIndex(exts, adds[i].GetType());
      assert Upsert(exts, add)[k].GetType() == adds[i].GetType();
    }
  }

  lemma UpsertCollects(exts: seq<Extension>, adds: seq<Extension>, add: Extension)
    requires Collects(exts, adds)
    ensures Collects(Upsert(exts, add), adds + [add])
  {
    var r, more := Upsert(exts, add), adds + [add];
    UpsertTypes(exts, add);
    forall i | 0 <= i < |r|
      ensures HasType(more, r[i].GetType()) && LastOfItsType(more, r[i])
      ensures FirstIndex(more, r[i].GetType())
              == if i < |exts| then FirstIndex(adds, exts[i].GetType()) else |adds|
    {
      UpsertedElement(exts, adds, add, i);
    }
    forall i | 0 <= i < |more|
      ensures HasType(r, more[i].GetType())
    {
      UpsertedTypes(exts, adds, add, i);
    }
  }

  /** For any sequence of additions: one extension per type, in order of first insertion, each the
    * last one added of its type. */
  lemma {:induction false} AddAllCollects(adds: seq<Extension>)
    ensures Collects(AddAll([], adds), adds)
  {
    if adds != [] {
      var init := adds[..|adds| - 1];
      AddAllCollects(init);
      UpsertCollects(AddAll([], init), init, adds[|adds| - 1]);
      assert adds == init + [adds[|adds| - 1]];
    }
  }

  // ---------------------------------------------------------------- numeric identifiers

  predicate SameNid(exts: seq<Extension>, a: nat, b: nat) {
    && a < |exts| && b < |exts|
    && exts[a].GetType().GetNid().Some?
    && exts[a].GetType().GetNid() == exts[b].GetType().GetNid()
  }

  predicate DistinctNids(exts: seq<Extension>) {
    forall a, b :: 0 <= a < b < |exts| ==> !SameNid(exts, a, b)
  }

  /** `OtherNid` is used for an extension the type can express directly. */
  predicate Expressible(nid: Nid) {
    nid == KEY_USAGE || nid == EXT_KEY_USAGE || nid == SUBJECT_ALT_NAME || nid == ISSUER_ALT_NAME
  }

  predicate ClashAt(exts: seq<Extension>, i: nat, j: nat) {
    && i < |exts| && j < |exts|
    && exts[i].OtherNid? && !exts[j].OtherNid?
    && exts[j].GetType().GetNid() == Some(exts[i].nid)
  }

  predicate Clash(exts: seq<Extension>) {
    exists i, j :: 0 <= i < |exts| && 0 <= j < |exts| && ClashAt(exts, i, j)
  }

  lemma ClashGivesEqualNids(exts: seq<Extension>, adds: seq<Extension>, i: nat, j: nat)
    requires SameTypes(exts, adds) && ClashAt(adds, i, j)
    ensures !DistinctNids(exts)
  {
    assert HasType(exts, adds[i].GetType()) && HasType(exts, adds[j].GetType());
    var a, b := FirstIndex(exts, adds[i].GetType()), FirstIndex(exts, adds[j].GetType());
    assert a != b;
    assert SameNid(exts, a, b) && SameNid(exts, b, a);
  }

  lemma EqualNidsGiveClash(exts: seq<Extension>, adds: seq<Extension>, a: nat, b: nat)
    requires OnePerType(exts) && SameTypes(exts, adds)
    requires a < b && SameNid(exts, a, b)
    ensures Clash(adds)
  {
    assert HasType(adds, exts[a].GetType()) && HasType(adds, exts[b].GetType());
    var i, j := FirstIndex(adds, exts[a].GetType()), FirstIndex(adds, exts[b].GetType());
    assert ClashAt(adds, i, j) || ClashAt(adds, j, i);
  }

  /** The identifiers a collection yields are pairwise distinct exactly when no `OtherNid` was added
    * beside the direct extension of the same identifier. */
  lemma NidsAreDistinctWithoutClash(adds: seq<Extension>)
    ensures DistinctNids(AddAll([], adds)) <==> !Clash(adds)
  {
    AddAllCollects(adds);
    var exts := AddAll([], adds);
    if Clash(adds) {
      var i, j :| 0 <= i < |adds| && 0 <= j < |adds| && ClashAt(adds, i, j);
      ClashGivesEqualNids(exts, adds, i, j);
    }
    if !DistinctNids(exts) {
      var a, b :| 0 <= a < b < |exts| && SameNid(exts, a, b);
      EqualNidsGiveClash(exts, adds, a, b);
    }
  }

  /** Callers who keep the documented rule get one extension per identifier. */
  lemma RuleGivesDistinctNids(adds: seq<Extension>)
    requires forall add :: add in adds && add.OtherNid? ==> !Expressible(add.nid)
    ensures DistinctNids(AddAll([], adds))
  {
    NidsAreDistinctWithoutClash(adds);
  }

  // ---------------------------------------------------------------- vector and index

  class Collection {
    var extensions: seq<Extension>
    var indexes: map<ExtensionType, nat>

    /** `indexes` maps each type present to exactly its position. */
    predicate Valid()
      reads this
    {
      && (forall i :: 0 <= i < |extensions| ==>
            extensions[i].GetType() in indexes && indexes[extensions[i].GetType()] == i)
      && (forall t :: t in indexes ==> indexes[t] < |extensions| && extensions[indexes[t]].GetType() == t)
    }

    constructor ()
      ensures Valid() && extensions == []
    {
      extensions, indexes := [], map[];
    }

    method Add(ext: Extension)
      requires Valid()
      modifies this
      ensures Valid() && extensions == Upsert(old(extensions), ext)
    {
      var t := ext.GetType();
      if t in indexes {
        assert extensions[indexes[t]].GetType() == t;
        extensions := extensions[indexes[t] := ext];
        return;
      }
      extensions := extensions + [ext];
      indexes := indexes[t := |extensions| - 1];
    }

    method AddExtensions(exts: seq<Extension>)
      requires Valid()
      modifies this
      ensures Valid() && extensions == AddAll(old(extensions), exts)
    {
      for i := 0 to |exts|
        invariant Valid() && extensions == AddAll(old(extensions), exts[..i])
      {
        assert exts[..i + 1][..i] == exts[..i];
        Add(exts[i]);
      }
      assert exts[..|exts|] == exts;
    }

    method Iter() returns (it: Iter)
      ensures fresh(it) && it.current == 0 && it.extensions == extensions
    {
      it := new Iter(extensions);
    }
  }

  class Iter {
    var current: nat
    const extensions: seq<Extension>

    constructor (extensions: seq<Extension>)
      ensures current == 0 && this.extensions == extensions
    {
      this.extensions := extensions;
      current := 0;
    }

    method Next() returns (item: Option<(ExtensionType, Extension)>)
      modifies this
      ensures if old(current) < |extensions|
              then && item == Some((extensions[old(current)].GetType(), extensions[old(current)]))
                   && current == old(current) + 1
              else item == None && current == old(current)
    {
      if current < |extensions| {
        var ext := extensions[current];
        current := current + 1;
        return Some((ext.GetType(), ext));
      }
      return None;
    }
  }

  /** The signing loop: what iterating after any additions yields. */
  method Signed(adds: seq<Extension>) returns (items: seq<(ExtensionType, Extension)>)
    ensures |items| == |AddAll([], adds)|
    ensures forall i :: 0 <= i < |items| ==> items[i] == (AddAll([], adds)[i].GetType(), AddAll([], adds)[i])
  {
    var c := new Collection();
    c.AddExtensions(adds);
    var it := c.Iter();
    items := [];
    var item := it.Next();
    while item.Some?
      invariant it.extensions == AddAll([], adds)
      invariant it.current == |items| + (if item.Some? then 1 else 0) <= |it.extensions|
      invariant item.Some? ==> item.value == (it.extensions[|items|].GetType(), it.extensions[|items|])
      invariant item.None? ==> |items| == |it.extensions|
      invariant forall i :: 0 <= i < |items| ==> items[i] == (it.extensions[i].GetType(), it.extensions[i])
      decreases |it.extensions| - |items|
    {
      items := items + [item.value];
      item := it.Next();
    }
  }
}
