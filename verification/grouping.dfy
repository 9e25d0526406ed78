/** The loading loop of merit-badge-initializer.py: every badge file is converted, rejected
    files are dropped, and each badge is appended to the list kept under its department
    name, upper-cased, as written in the file (the folder the file sits in is not used). */
module Grouping {

  import opened Wrappers
  import opened JsonData
  import opened Curriculum
  import opened Conversion
  import opened Insertion

  /** `str.upper` on the ASCII letters; every other character is kept. */
  function UpperChar(c: char): char
  {
    if 'a' <= c <= 'z' then (c as int - 32) as char else c
  }

  function Upper(s: string): string
  {
    seq(|s|, i requires 0 <= i < |s| => UpperChar(s[i]))
  }

  /** A badge file the loop gets through: a badge dictionary the converter is written for,
      whose department name, if the badge is accepted, is a string (it is upper-cased). */
  predicate Loadable(data: Json)
  {
    BadgeConvertible(data) && (HasBadgeKeys(data.fields) ==> data.fields["dpmt_name"].JStr?)
  }

  /** A badge file the loop gets through: the department folder it was found in and its
      parsed JSON. */
  type BadgeFile = f: (string, Json) | Loadable(f.1) witness ("", JObj(map[]))

  /** A converted badge whose department name is a string, so it can be filed. */
  type FiledBadge = b: MeritBadge | b.dpmtName.JStr? witness MeritBadge(None, JNull, JNull, JNull, JStr(""), [])

  /** The key a converted badge is filed under. */
  function DepartmentKey(b: FiledBadge): string
  {
    Upper(b.dpmtName.s)
  }

  /** The badges the files convert to, in file order, rejected files left out. */
  function Accepted(files: seq<BadgeFile>): (bs: seq<FiledBadge>)
    ensures |bs| <= |files|
  {
    if |files| == 0 then []
    else
      var last := files[|files| - 1].1;
      Accepted(files[..|files| - 1]) + (match ConvertMeritBadge(last) case None => [] case Some(b) => [b])
  }

  /** The badges of a list filed under `key`, in order. */
  function FiledUnder(bs: seq<FiledBadge>, key: string): seq<FiledBadge>
  {
    if |bs| == 0 then []
    else FiledUnder(bs[..|bs| - 1], key) + (if DepartmentKey(bs[|bs| - 1]) == key then [bs[|bs| - 1]] else [])
  }

  /** The keys of a list of badges, each once, in order of first appearance. */
  function FirstSeen(bs: seq<FiledBadge>): seq<string>
  {
    if |bs| == 0 then []
    else
      var earlier := FirstSeen(bs[..|bs| - 1]);
      var key := DepartmentKey(bs[|bs| - 1]);
      if key in earlier then earlier else earlier + [key]
  }

  /** No key is listed twice, so the dictionary's key order visits each department once. */
  lemma {:induction false} FirstSeenDistinct(bs: seq<FiledBadge>)
    ensures forall i, j :: 0 <= i < j < |FirstSeen(bs)| ==> FirstSeen(bs)[i] != FirstSeen(bs)[j]
    decreases |bs|
  {
    if |bs| > 0 {
      FirstSeenDistinct(bs[..|bs| - 1]);
    }
  }

  /** Every accepted badge is as the converter builds it: no id yet, fresh requirements. */
  lemma {:induction false} AcceptedFresh(files: seq<BadgeFile>)
    ensures forall b :: b in Accepted(files) ==> FreshBadge(b)
    decreases |files|
  {
    if |files| > 0 {
      AcceptedFresh(files[..|files| - 1]);
    }
  }

  /** The list filed under a key holds exactly the badges whose upper-cased department
      name is that key. */
  lemma {:induction false} FiledUnderIsFilter(bs: seq<FiledBadge>, key: string, b: FiledBadge)
    ensures b in FiledUnder(bs, key) <==> b in bs && DepartmentKey(b) == key
    decreases |bs|
  {
    if |bs| > 0 {
      var init := bs[..|bs| - 1];
      assert bs == init + [bs[|bs| - 1]];
      FiledUnderIsFilter(init, key, b);
    }
  }

  /** Which folder a file was found in plays no part: only the JSON decides the grouping. */
  lemma {:induction false} AcceptedIgnoresFolders(files: seq<BadgeFile>, moved: seq<BadgeFile>)
    requires |files| == |moved|
    requires forall i :: 0 <= i < |files| ==> files[i].1 == moved[i].1
    ensures Accepted(files) == Accepted(moved)
    decreases |files|
  {
    if |files| > 0 {
      AcceptedIgnoresFolders(files[..|files| - 1], moved[..|moved| - 1]);
    }
  }

  /** `groups` and `order` hold exactly the badges `bs` filed by department key. */
  ghost predicate Grouped(groups: map<string, seq<FiledBadge>>, order: seq<string>, bs: seq<FiledBadge>)
  {
    && (forall key :: key in groups <==> |FiledUnder(bs, key)| > 0)
    && (forall key :: key in groups ==> groups[key] == FiledUnder(bs, key))
    && order == FirstSeen(bs)
    && (forall j :: 0 <= j < |order| ==> order[j] in groups)
    && (forall key :: key in groups ==> key in order)
  }

  /** `setdefault(key, []).append(b)`: append the badge to its key's list, opening the
      list (and extending the key order) the first time the key is seen. */
  function File(groups: map<string, seq<FiledBadge>>, order: seq<string>, b: FiledBadge): (map<string, seq<FiledBadge>>, seq<string>)
  {
    var key := DepartmentKey(b);
    if key in groups then (groups[key := groups[key] + [b]], order)
    else (groups[key := [b]], order + [key])
  }

  /** Filing one more badge keeps the grouping exact. */
  lemma GroupedSnoc(groups: map<string, seq<FiledBadge>>, order: seq<string>, bs: seq<FiledBadge>, b: FiledBadge)
    requires Grouped(groups, order, bs)
    ensures Grouped(File(groups, order, b).0, File(groups, order, b).1, bs + [b])
  {
    var bs' := bs + [b];
    assert bs'[..|bs'| - 1] == bs;
    assert forall key :: FiledUnder(bs', key) == FiledUnder(bs, key) + (if DepartmentKey(b) == key then [b] else []);
  }

  lemma AcceptedStep(files: seq<BadgeFile>, i: nat)
    requires i < |files|
    ensures ConvertMeritBadge(files[i].1).None? ==> Accepted(files[..i + 1]) == Accepted(files[..i])
    ensures ConvertMeritBadge(files[i].1).Some? ==>
              Accepted(files[..i + 1]) == Accepted(files[..i]) + [ConvertMeritBadge(files[i].1).value]
  {
    assert files[..i + 1][..i] == files[..i];
  }

  /** The loop at merit-badge-initializer.py:107-112 with `setdefault(...).append(...)`;
      `order` is the order in which keys enter the dictionary. */
  method GroupByDepartment(files: seq<BadgeFile>) returns (groups: map<string, seq<FiledBadge>>, order: seq<string>)
    ensures forall key :: key in groups <==> |FiledUnder(Accepted(files), key)| > 0
    ensures forall key :: key in groups ==> groups[key] == FiledUnder(Accepted(files), key)
    ensures order == FirstSeen(Accepted(files))
    ensures forall i, j :: 0 <= i < j < |order| ==> order[i] != order[j]
    ensures Distinct(order)
    ensures forall key, k :: key in groups && 0 <= k < |groups[key]| ==> FreshBadge(groups[key][k])
    ensures forall i :: 0 <= i < |order| ==> order[i] in groups
    ensures forall key :: key in groups ==> key in order
  {
    groups := map[];
    order := [];
    var i := 0;
    while i < |files|
      invariant 0 <= i <= |files|
      invariant Grouped(groups, order, Accepted(files[..i]))
    {
      AcceptedStep(files, i);
      ghost var filed := Accepted(files[..i]);
      var badge := ConvertMeritBadge(files[i].1);
      if badge.Some? {
        GroupedSnoc(groups, order, filed, badge.value);
        groups, order := File(groups, order, badge.value).0, File(groups, order, badge.value).1;
        assert Grouped(groups, order, filed + [badge.value]);
      }
      i := i + 1;
    }
    assert files[..|files|] == files;
    FirstSeenDistinct(Accepted(files));
    DistinctIfNoRepeats(order);
    AcceptedFresh(files);
    forall key, k | key in groups && 0 <= k < |groups[key]| ensures FreshBadge(groups[key][k]) {
      FiledUnderIsFilter(Accepted(files), key, groups[key][k]);
    }
  }
}
