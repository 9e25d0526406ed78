/** `Requirement.convert_requirement_from_json` and `MeritBadge.convert_merit_badge_from_json`
    (meritBadge.py), with an encoder back to JSON as their partner: encoding a freshly built
    tree and converting it again gives the same tree. */
module Conversion {

  import opened Wrappers
  import opened JsonData
  import opened Curriculum

  /** Both keys the requirement converter insists on. */
  predicate HasRequirementKeys(d: map<string, Json>)
  {
    "rqmt_idnf" in d && "rqmt_desc" in d
  }

  /** The nested list is read only when the key is there and its value is not null. */
  predicate HasNestedList(d: map<string, Json>)
  {
    "requirements" in d && !d["requirements"].JNull?
  }

  /** The shapes the converter is written for: a dictionary at every node it reads, and a
      list wherever it iterates. A node that lacks one of its keys is never looked into. */
  predicate Convertible(j: Json)
    decreases j
  {
    && j.JObj?
    && (HasRequirementKeys(j.fields) && HasNestedList(j.fields) ==>
          && j.fields["requirements"].JArr?
          && forall i :: 0 <= i < |j.fields["requirements"].elems| ==>
               Convertible(j.fields["requirements"].elems[i]))
  }

  /** The list of child dictionaries of a node that is read recursively. */
  function NestedList(j: Json): seq<Json>
    requires Convertible(j) && HasRequirementKeys(j.fields) && HasNestedList(j.fields)
  {
    j.fields["requirements"].elems
  }

  /** Slot `o` was read from dictionary `x`, all the way down: it is `None` exactly when a
      key is missing; otherwise it holds the two values as they are in `x`, and its children
      are read in place from the nested list (none when the list is missing or null). */
  predicate Mirrors(o: Option<Requirement>, x: Json)
    decreases x
  {
    && x.JObj?
    && match o
       case None => !HasRequirementKeys(x.fields)
       case Some(r) =>
         && HasRequirementKeys(x.fields)
         && r.idnf == x.fields["rqmt_idnf"]
         && r.desc == x.fields["rqmt_desc"]
         && if HasNestedList(x.fields) then
              && x.fields["requirements"].JArr?
              && |r.children| == |x.fields["requirements"].elems|
              && forall i :: 0 <= i < |r.children| ==> Mirrors(r.children[i], x.fields["requirements"].elems[i])
            else
              r.children == []
  }

  function ConvertRequirement(j: Json): (r: Option<Requirement>)
    requires Convertible(j)
    decreases j
    ensures Mirrors(r, j)
    ensures r.Some? && HasNestedList(j.fields) ==> |r.value.children| == |NestedList(j)|
    ensures r.Some? ==> FreshNode(r.value)
  {
    var d := j.fields;
    if HasRequirementKeys(d) then
      var children :=
        if HasNestedList(d) then
          var xs := d["requirements"].elems;
          seq(|xs|, i requires 0 <= i < |xs| => ConvertRequirement(xs[i]))
        else [];
      Some(NewRequirement(d["rqmt_idnf"], d["rqmt_desc"], children))
    else
      None
  }

  /** The contract above pins the conversion down: the only slot with unset ids that
      mirrors a dictionary is the converted one. */
  lemma {:induction false} ConvertIsOnlyMirror(j: Json, o: Option<Requirement>)
    requires Convertible(j) && Mirrors(o, j) && FreshSlot(o)
    ensures o == ConvertRequirement(j)
    decreases j
  {
    var c := ConvertRequirement(j);
    if o.Some? {
      var r, s := o.value, c.value;
      assert Fresh(r.children) && Fresh(s.children);
      if HasNestedList(j.fields) {
        var xs := NestedList(j);
        forall i | 0 <= i < |xs| ensures r.children[i] == s.children[i] {
          assert FreshSlot(r.children[i]) && FreshSlot(s.children[i]);
          ConvertIsOnlyMirror(xs[i], r.children[i]);
          ConvertIsOnlyMirror(xs[i], s.children[i]);
        }
      }
      assert r.children == s.children;
    }
  }

  /** The five keys the badge converter insists on. */
  predicate HasBadgeKeys(d: map<string, Json>)
  {
    "badge_name" in d && "badge_desc" in d && "eagle_badge" in d && "dpmt_name" in d && "requirements" in d
  }

  /** A badge dictionary whose requirement list, when the badge is accepted, is a list of
      convertible requirement dictionaries (a null list would be iterated and raise). */
  predicate BadgeConvertible(j: Json)
  {
    && j.JObj?
    && (HasBadgeKeys(j.fields) ==>
          && j.fields["requirements"].JArr?
          && forall i :: 0 <= i < |j.fields["requirements"].elems| ==>
               Convertible(j.fields["requirements"].elems[i]))
  }

  function ConvertMeritBadge(j: Json): (r: Option<MeritBadge>)
    requires BadgeConvertible(j)
    ensures r.None? <==> !HasBadgeKeys(j.fields)
    ensures r.Some? ==>
              && r.value.badgeId.None?
              && r.value.name == j.fields["badge_name"]
              && r.value.desc == j.fields["badge_desc"]
              && r.value.eagle == j.fields["eagle_badge"]
              && r.value.dpmtName == j.fields["dpmt_name"]
              && |r.value.requirements| == |j.fields["requirements"].elems|
              && Fresh(r.value.requirements)
    ensures r.Some? ==>
              forall i :: 0 <= i < |r.value.requirements| ==>
                Mirrors(r.value.requirements[i], j.fields["requirements"].elems[i])
  {
    var d := j.fields;
    if HasBadgeKeys(d) then
      var xs := d["requirements"].elems;
      var requirements := seq(|xs|, i requires 0 <= i < |xs| => ConvertRequirement(xs[i]));
      Some(NewMeritBadge(d["badge_name"], d["badge_desc"], d["eagle_badge"], d["dpmt_name"], requirements))
    else
      None
  }

  /** The JSON a requirement tree is read from: the three keys the converter looks at, and
      an empty dictionary for a rejected slot. */
  function EncodeRequirement(r: Requirement): Json
    decreases r
  {
    JObj(map["rqmt_idnf" := r.idnf, "rqmt_desc" := r.desc,
             "requirements" := JArr(seq(|r.children|, i requires 0 <= i < |r.children| => EncodeSlot(r.children[i])))])
  }

  function EncodeSlot(o: Option<Requirement>): Json
    decreases o
  {
    match o
    case None => JObj(map[])
    case Some(r) => EncodeRequirement(r)
  }

  /** Converting the encoding of a freshly built requirement gives it back, `None` slots
      included. */
  lemma {:induction false} RequirementRoundTrip(r: Requirement)
    requires FreshNode(r)
    ensures Convertible(EncodeRequirement(r))
    ensures ConvertRequirement(EncodeRequirement(r)) == Some(r)
    decreases r, 1
  {
    var j := EncodeRequirement(r);
    var xs := j.fields["requirements"].elems;
    forall i | 0 <= i < |xs|
      ensures Convertible(xs[i]) && ConvertRequirement(xs[i]) == r.children[i]
    {
      assert FreshSlot(r.children[i]);
      SlotRoundTrip(r.children[i]);
    }
    assert ConvertRequirement(j).value.children == r.children;
  }

  lemma {:induction false} SlotRoundTrip(o: Option<Requirement>)
    requires FreshSlot(o)
    ensures Convertible(EncodeSlot(o))
    ensures ConvertRequirement(EncodeSlot(o)) == o
    decreases o, 0
  {
    match o
    case None =>
    case Some(r) => RequirementRoundTrip(r);
  }

  /** The JSON a merit badge is read from. */
  function EncodeMeritBadge(b: MeritBadge): Json
  {
    JObj(map["badge_name" := b.name, "badge_desc" := b.desc, "eagle_badge" := b.eagle,
             "dpmt_name" := b.dpmtName,
             "requirements" := JArr(seq(|b.requirements|, i requires 0 <= i < |b.requirements| => EncodeSlot(b.requirements[i])))])
  }

  /** Converting the encoding of a badge that has not been inserted yet gives it back. */
  lemma {:induction false} MeritBadgeRoundTrip(b: MeritBadge)
    requires b.badgeId.None? && Fresh(b.requirements)
    ensures BadgeConvertible(EncodeMeritBadge(b))
    ensures ConvertMeritBadge(EncodeMeritBadge(b)) == Some(b)
  {
    var j := EncodeMeritBadge(b);
    var xs := j.fields["requirements"].elems;
    forall i | 0 <= i < |xs|
      ensures Convertible(xs[i]) && ConvertRequirement(xs[i]) == b.requirements[i]
    {
      assert FreshSlot(b.requirements[i]);
      SlotRoundTrip(b.requirements[i]);
    }
    assert ConvertMeritBadge(j).value.requirements == b.requirements;
  }

  /** Conversion is a normal form: converting the encoding of a converted requirement
      changes nothing. */
  lemma ConvertNormalizes(j: Json)
    requires Convertible(j) && HasRequirementKeys(j.fields)
    ensures Convertible(EncodeRequirement(ConvertRequirement(j).value))
    ensures ConvertRequirement(EncodeRequirement(ConvertRequirement(j).value)) == ConvertRequirement(j)
  {
    RequirementRoundTrip(ConvertRequirement(j).value);
  }
}
