/**
 tag_db.cc, TagForCommit: the two ways of looking a commit up among the packed tags, before and after the background
 sort of id2name_ has finished.

 Ids are byte strings in memcmp order. TagHasTarget asks libgit2 and is a parameter.
 */
module TagDb {
  import opened ByteStrings

  datatype Tag = Tag(name: Str, id: Str)

  function KeyOf(t: Tag, byId: bool): Str { if byId then t.id else t.name }

  ghost predicate SortedBy(tags: seq<Tag>, byId: bool) {
    forall i, j :: 0 <= i < j < |tags| ==> Leq(KeyOf(tags[i], byId), KeyOf(tags[j], byId))
  }

  /** A tag that points to oid: a loose one libgit2 resolves to it, or a packed one no loose tag shadows. */
  ghost predicate PointsTo(loose: seq<Str>, packed: seq<Tag>, hasTarget: Str -> bool, oid: Str, name: Str) {
    || (name in loose && hasTarget(name))
    || (exists t :: t in packed && t.name == name && t.id == oid && name !in loose)
  }

  /** The answer: the greatest name that points to oid, or the empty string. */
  ghost predicate IsAnswer(loose: seq<Str>, packed: seq<Tag>, hasTarget: Str -> bool, oid: Str, r: Str) {
    && (r == [] || PointsTo(loose, packed, hasTarget, oid, r))
    && forall name :: PointsTo(loose, packed, hasTarget, oid, name) ==> Leq(name, r)
  }

  lemma AnswerIsUnique(loose: seq<Str>, packed: seq<Tag>, hasTarget: Str -> bool, oid: Str, r: Str, s: Str)
    requires IsAnswer(loose, packed, hasTarget, oid, r) && IsAnswer(loose, packed, hasTarget, oid, s)
    ensures r == s
  {
    EmptyIsLeast(r);
    EmptyIsLeast(s);
    assert Leq(r, s) && Leq(s, r);
    if r != s { LessAsymmetric(r, s); }
  }

  lemma EmptyIsLeast(x: Str)
    ensures Leq([], x)
  {
  }

  /** IsLooseTag: std::binary_search in the sorted loose tags. */
  method IsLooseTag(loose: seq<Str>, name: Str) returns (r: bool)
    requires StrictlySorted(loose)
    ensures r <==> name in loose
  {
    hide Less;
    var lo, hi := 0, |loose|;
    while lo < hi
      invariant 0 <= lo <= hi <= |loose|
      invariant forall i :: 0 <= i < lo ==> Less(loose[i], name)
      invariant forall i :: hi <= i < |loose| ==> Leq(name, loose[i])
    {
      var mid := (lo + hi) / 2;
      if Less(loose[mid], name) {
        forall i | 0 <= i <= mid ensures Less(loose[i], name) {
          if i < mid { LessTransitive(loose[i], loose[mid], name); }
        }
        lo := mid + 1;
      } else {
        NotLess(loose[mid], name);
        forall i | mid <= i < |loose| ensures Leq(name, loose[i]) {
          if mid < i { LeqTransitive(name, loose[mid], loose[i]); }
        }
        hi := mid;
      }
    }
    r := lo < |loose| && loose[lo] == name;
    if name in loose {
      var i :| 0 <= i < |loose| && loose[i] == name;
      if i < lo { LessAsymmetric(loose[i], name); }
      if lo < i { LessAsymmetric(loose[lo], loose[i]); }
    }
  }

  /** std::lower_bound (strict) or std::upper_bound by id. */
  method Bound(tags: seq<Tag>, oid: Str, upper: bool) returns (k: nat)
    requires SortedBy(tags, true)
    ensures k <= |tags|
    ensures forall i :: 0 <= i < k ==> if upper then Leq(tags[i].id, oid) else Less(tags[i].id, oid)
    ensures forall i :: k <= i < |tags| ==> if upper then Less(oid, tags[i].id) else Leq(oid, tags[i].id)
  {
    hide Less;
    var lo, hi := 0, |tags|;
    while lo < hi
      invariant 0 <= lo <= hi <= |tags|
      invariant forall i :: 0 <= i < lo ==> if upper then Leq(tags[i].id, oid) else Less(tags[i].id, oid)
      invariant forall i :: hi <= i < |tags| ==> if upper then Less(oid, tags[i].id) else Leq(oid, tags[i].id)
    {
      var mid := (lo + hi) / 2;
      var left := if upper then !Less(oid, tags[mid].id) else Less(tags[mid].id, oid);
      NotLess(oid, tags[mid].id);
      NotLess(tags[mid].id, oid);
      if left {
        forall i | 0 <= i <= mid ensures if upper then Leq(tags[i].id, oid) else Less(tags[i].id, oid) {
          if i < mid { LeqTransitive(tags[i].id, tags[mid].id, oid); }
        }
        lo := mid + 1;
      } else {
        forall i | mid <= i < |tags| ensures if upper then Less(oid, tags[i].id) else Leq(oid, tags[i].id) {
          if mid < i { LeqTransitive(oid, tags[mid].id, tags[i].id); }
        }
        hi := mid;
      }
    }
    k := lo;
  }

  /** res is the greatest of the first n loose tags that point to oid. */
  ghost predicate BestLoose(loose: seq<Str>, hasTarget: Str -> bool, n: nat, res: Str)
    requires n <= |loose|
  {
    && (res == [] || (res in loose && hasTarget(res)))
    && forall i :: 0 <= i < n && hasTarget(loose[i]) ==> Leq(loose[i], res)
  }

  /** The loop over loose tags. */
  method LooseTag(loose: seq<Str>, hasTarget: Str -> bool) returns (res: Str)
    ensures BestLoose(loose, hasTarget, |loose|, res)
  {
    res := [];
    for i := 0 to |loose|
      invariant BestLoose(loose, hasTarget, i, res)
    {
      NotLess(res, loose[i]);
      if Less(res, loose[i]) && hasTarget(loose[i]) {
        forall j | 0 <= j < i && hasTarget(loose[j]) ensures Leq(loose[j], loose[i]) {
          LeqTransitive(loose[j], res, loose[i]);
        }
        res := loose[i];
      }
    }
  }

  /** A packed tag that counts. */
  predicate Matches(loose: seq<Str>, t: Tag, oid: Str) { t.id == oid && t.name !in loose }

  /** best is the greatest of res and the names of the matching packed tags. */
  ghost predicate BestOf(loose: seq<Str>, packed: seq<Tag>, oid: Str, res: Str, best: Str) {
    && (best == res || exists t :: t in packed && Matches(loose, t, oid) && t.name == best)
    && Leq(res, best)
    && forall t :: t in packed && Matches(loose, t, oid) ==> Leq(t.name, best)
  }

  /** While id2name_ is being sorted: walk name2id_ backwards to the first match. */
  method ByName(loose: seq<Str>, name2id: seq<Tag>, oid: Str, res: Str) returns (best: Str)
    requires StrictlySorted(loose) && SortedBy(name2id, false)
    ensures BestOf(loose, name2id, oid, res, best)
  {
    hide Less;
    best := res;
    var i := |name2id|;
    while i != 0
      invariant 0 <= i <= |name2id| && best == res
      invariant forall j :: i <= j < |name2id| ==> !Matches(loose, name2id[j], oid)
      decreases i
    {
      i := i - 1;
      var t := name2id[i];
      var shadowed := IsLooseTag(loose, t.name);
      if t.id == oid && !shadowed {
        NotLess(res, t.name);
        if Less(res, t.name) { best := t.name; }
        forall u | u in name2id && Matches(loose, u, oid) ensures Leq(u.name, best) {
          var j :| 0 <= j < |name2id| && name2id[j] == u;
          if j < i { LeqTransitive(u.name, t.name, best); }
        }
        return;
      }
    }
    assert forall j :: 0 <= j < |name2id| ==> !Matches(loose, name2id[j], oid);
  }

  /** Afterwards: the range of id2name_ with this id. */
  method ById(loose: seq<Str>, id2name: seq<Tag>, oid: Str, res: Str) returns (best: Str)
    requires StrictlySorted(loose) && SortedBy(id2name, true)
    ensures BestOf(loose, id2name, oid, res, best)
  {
    hide Less;
    var first := Bound(id2name, oid, false);
    var last := Bound(id2name, oid, true);
    RangeIsExact(id2name, oid, first, last);
    best := res;
    var i := first;
    while i < last
      invariant first <= i <= |id2name|
      invariant Leq(res, best)
      invariant best == res || exists t :: t in id2name && Matches(loose, t, oid) && t.name == best
      invariant forall j :: first <= j < i && Matches(loose, id2name[j], oid) ==> Leq(id2name[j].name, best)
    {
      var t := id2name[i];
      var shadowed := IsLooseTag(loose, t.name);
      NotLess(best, t.name);
      if !shadowed && Less(best, t.name) {
        LeqTransitive(res, best, t.name);
        forall j | first <= j < i && Matches(loose, id2name[j], oid) ensures Leq(id2name[j].name, t.name) {
          LeqTransitive(id2name[j].name, best, t.name);
        }
        assert t in id2name && Matches(loose, t, oid);
        best := t.name;
      }
      i := i + 1;
    }
    forall u | u in id2name && Matches(loose, u, oid) ensures Leq(u.name, best) {
      var j :| 0 <= j < |id2name| && id2name[j] == u;
    }
  }

  lemma RangeIsExact(tags: seq<Tag>, oid: Str, first: nat, last: nat)
    requires first <= |tags| && last <= |tags|
    requires forall i :: 0 <= i < first ==> Less(tags[i].id, oid)
    requires forall i :: first <= i < |tags| ==> Leq(oid, tags[i].id)
    requires forall i :: 0 <= i < last ==> Leq(tags[i].id, oid)
    requires forall i :: last <= i < |tags| ==> Less(oid, tags[i].id)
    ensures forall i :: 0 <= i < |tags| ==> (tags[i].id == oid <==> first <= i < last)
  {
    forall i | 0 <= i < |tags| ensures tags[i].id == oid <==> first <= i < last {
      if i < first { LessAsymmetric(tags[i].id, oid); }
      if last <= i { LessAsymmetric(oid, tags[i].id); }
      if first <= i < last && tags[i].id != oid { LessAsymmetric(tags[i].id, oid); }
    }
  }

  lemma BestIsAnswer(loose: seq<Str>, packed: seq<Tag>, list: seq<Tag>, hasTarget: Str -> bool, oid: Str, res: Str, best: Str)
    requires BestLoose(loose, hasTarget, |loose|, res) && BestOf(loose, list, oid, res, best)
    requires multiset(list) == multiset(packed)
    ensures IsAnswer(loose, packed, hasTarget, oid, best)
  {
    forall t ensures t in list <==> t in packed {
      assert t in list <==> t in multiset(list);
      assert t in packed <==> t in multiset(packed);
    }
    forall name | PointsTo(loose, packed, hasTarget, oid, name) ensures Leq(name, best) {
      if name in loose && hasTarget(name) {
        var i :| 0 <= i < |loose| && loose[i] == name;
        LeqTransitive(name, res, best);
      } else {
        var t :| t in packed && t.name == name && t.id == oid && name !in loose;
        assert Matches(loose, t, oid);
      }
    }
  }

  /* ---- the two orders ---- */

  function InsertTag(t: Tag, s: seq<Tag>, byId: bool): (r: seq<Tag>)
    ensures multiset(r) == multiset(s) + multiset{t}
  {
    if s == [] || !Less(KeyOf(s[0], byId), KeyOf(t, byId)) then [t] + s
    else
      assert s == [s[0]] + s[1..];
      [s[0]] + InsertTag(t, s[1..], byId)
  }

  /** std::sort by name or by id. */
  function SortTags(s: seq<Tag>, byId: bool): (r: seq<Tag>)
    ensures multiset(r) == multiset(s)
  {
    if s == [] then []
    else
      assert s == [s[0]] + s[1..];
      InsertTag(s[0], SortTags(s[1..], byId), byId)
  }

  lemma {:induction false} InsertTagSorts(t: Tag, s: seq<Tag>, byId: bool)
    requires SortedBy(s, byId)
    ensures SortedBy(InsertTag(t, s, byId), byId)
  {
    hide Less, KeyOf;
    if s == [] {
    } else if !Less(KeyOf(s[0], byId), KeyOf(t, byId)) {
      NotLess(KeyOf(s[0], byId), KeyOf(t, byId));
      forall j | 0 <= j < |s| ensures Leq(KeyOf(t, byId), KeyOf(s[j], byId)) {
        LeqTransitive(KeyOf(t, byId), KeyOf(s[0], byId), KeyOf(s[j], byId));
      }
    } else {
      var rest := InsertTag(t, s[1..], byId);
      InsertTagSorts(t, s[1..], byId);
      forall j | 0 <= j < |rest| ensures Leq(KeyOf(s[0], byId), KeyOf(rest[j], byId)) {
        assert rest[j] in multiset(rest);
        assert rest[j] == t || rest[j] in s[1..];
      }
    }
  }

  lemma {:induction false} SortTagsSorts(s: seq<Tag>, byId: bool)
    ensures SortedBy(SortTags(s, byId), byId)
  {
    hide SortedBy;
    if s != [] {
      SortTagsSorts(s[1..], byId);
      InsertTagSorts(s[0], SortTags(s[1..], byId), byId);
    } else {
      NoneSorted(byId);
    }
  }

  lemma NoneSorted(byId: bool)
    ensures SortedBy([], byId)
  {
  }

  /** std::is_sorted by name. */
  method IsSortedByName(tags: seq<Tag>) returns (r: bool)
    ensures r <==> SortedBy(tags, false)
  {
    hide Less;
    if tags == [] { return true; }
    for i := 1 to |tags|
      invariant forall j, k :: 0 <= j < k < i ==> Leq(tags[j].name, tags[k].name)
    {
      if Less(tags[i].name, tags[i - 1].name) {
        LessAsymmetric(tags[i].name, tags[i - 1].name);
        assert !Leq(KeyOf(tags[i - 1], false), KeyOf(tags[i], false));
        return false;
      }
      NotLess(tags[i].name, tags[i - 1].name);
      forall j | 0 <= j < i ensures Leq(tags[j].name, tags[i].name) {
        if j < i - 1 { LeqTransitive(tags[j].name, tags[i - 1].name, tags[i].name); }
      }
    }
    r := true;
  }

  /** The tags of the packed-refs file, by name and, once the background sort is done, by id. */
  class TagIndex {
    var name2id: seq<Tag>
    var id2name: seq<Tag>
    var dirty: bool

    ghost predicate Valid(packed: seq<Tag>)
      reads this
    {
      && multiset(name2id) == multiset(packed) == multiset(id2name)
      && SortedBy(name2id, false) && (!dirty ==> SortedBy(id2name, true))
    }

    constructor ()
      ensures Valid([])
    {
      name2id, id2name, dirty := [], [], false;
    }

    /** The end of ParsePack: sort by name where the file is not sorted, and leave the sort by id to the pool. */
    method Load(tags: seq<Tag>)
      modifies this
      ensures Valid(tags) && dirty
    {
      var sorted := IsSortedByName(tags);
      SortTagsSorts(tags, false);
      name2id := if sorted then tags else SortTags(tags, false);
      id2name, dirty := tags, true;
    }

    /** The background task. */
    method FinishSort(ghost packed: seq<Tag>)
      requires Valid(packed) && dirty
      modifies this
      ensures Valid(packed) && !dirty && name2id == old(name2id)
    {
      SortTagsSorts(id2name, true);
      id2name, dirty := SortTags(id2name, true), false;
    }

    /** TagForCommit. The answer does not depend on whether the background sort has finished. */
    method TagForCommit(loose: seq<Str>, ghost packed: seq<Tag>, hasTarget: Str -> bool, oid: Str) returns (res: Str)
      requires Valid(packed) && StrictlySorted(loose)
      ensures IsAnswer(loose, packed, hasTarget, oid, res)
    {
      hide IsAnswer, BestOf, BestLoose, SortedBy;
      var l := LooseTag(loose, hasTarget);
      if dirty {
        res := ByName(loose, name2id, oid, l);
        BestIsAnswer(loose, packed, name2id, hasTarget, oid, l, res);
      } else {
        res := ById(loose, id2name, oid, l);
        BestIsAnswer(loose, packed, id2name, hasTarget, oid, l, res);
      }
    }
  }
}
