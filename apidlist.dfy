// pdsinfo's per-APID records: a list kept in ascending APID order, searched front to back
// (AllocAPIDInfo, AddAPIDInfo, FindAPIDInfo).

module ApidList {

  /** `struct apid_info` without its link: the list itself is the sequence. */
  datatype ApidInfo = ApidInfo(apid: int, count: int, invalid: int, missing: int, lastPktCount: int)

  /** AllocAPIDInfo: a fresh record with no packets seen and last count -1. */
  function AllocApidInfo(apid: int): ApidInfo {
    ApidInfo(apid, 0, 0, 0, -1)
  }

  predicate Sorted(list: seq<ApidInfo>) {
    forall i, j :: 0 <= i < j < |list| ==> list[i].apid <= list[j].apid
  }

  predicate StrictlySorted(list: seq<ApidInfo>) {
    forall i, j :: 0 <= i < j < |list| ==> list[i].apid < list[j].apid
  }

  predicate Holds(list: seq<ApidInfo>, apid: int) {
    exists k :: 0 <= k < |list| && list[k].apid == apid
  }

  /**
   * FindAPIDInfo: the position of the first record with that APID, or -1 (NULL) when there
   * is none.
   */
  method FindApidInfo(list: seq<ApidInfo>, apid: int) returns (idx: int)
    ensures -1 <= idx < |list|
    ensures idx == -1 <==> !Holds(list, apid)
    ensures idx >= 0 ==> list[idx].apid == apid
    ensures idx >= 0 ==> forall k :: 0 <= k < idx ==> list[k].apid != apid
  {
    var p := 0;
    while p < |list|
      invariant 0 <= p <= |list|
      invariant forall k :: 0 <= k < p ==> list[k].apid != apid
    {
      if list[p].apid == apid {
        return p;
      }
      p := p + 1;
    }
    return -1;
  }

  /**
   * AddAPIDInfo: the record goes in front of the first record with a larger APID, or at the
   * end. The list stays sorted and gains exactly the new record.
   */
  method AddApidInfo(list: seq<ApidInfo>, ai: ApidInfo) returns (r: seq<ApidInfo>, at: nat)
    requires Sorted(list)
    ensures at <= |list| && r == list[..at] + [ai] + list[at..]
    ensures Sorted(r)
    ensures multiset(r) == multiset(list) + multiset{ai}
    ensures StrictlySorted(list) && !Holds(list, ai.apid) ==> StrictlySorted(r)
  {
    if |list| == 0 {
      Insert(list, 0, ai);
      return [ai], 0;
    }
    if list[0].apid > ai.apid {
      Insert(list, 0, ai);
      return [ai] + list, 0;
    }
    var p := 0;
    while p + 1 < |list|
      invariant 0 <= p < |list|
      invariant forall k :: 0 <= k <= p ==> list[k].apid <= ai.apid
    {
      if list[p + 1].apid > ai.apid {
        Insert(list, p + 1, ai);
        return list[..p + 1] + [ai] + list[p + 1..], p + 1;
      }
      p := p + 1;
    }
    Insert(list, |list|, ai);
    return list + [ai], |list|;
  }

  /** Putting a record between the records below and above its APID keeps the order. */
  lemma Insert(list: seq<ApidInfo>, k: nat, ai: ApidInfo)
    requires Sorted(list) && k <= |list|
    requires forall i :: 0 <= i < k ==> list[i].apid <= ai.apid
    requires k < |list| ==> list[k].apid > ai.apid
    ensures var r := list[..k] + [ai] + list[k..];
      && Sorted(r)
      && multiset(r) == multiset(list) + multiset{ai}
      && (StrictlySorted(list) && !Holds(list, ai.apid) ==> StrictlySorted(r))
      && (k == 0 ==> r == [ai] + list)
      && (k == |list| ==> r == list + [ai])
  {
    var r := list[..k] + [ai] + list[k..];
    SplicedMultiset(list, k, ai);
    if k == 0 {
      assert list[..k] == [] && list[k..] == list;
    }
    if k == |list| {
      assert list[..k] == list && list[k..] == [];
    }
    SplicedAt(list, k, ai);
    SplicedSorted(list, k, ai);
    forall i, j | 0 <= i < j < |r| ensures r[i].apid <= r[j].apid {
      assert r[i] == Spliced(list, k, ai, i) && r[j] == Spliced(list, k, ai, j);
    }
    if StrictlySorted(list) && !Holds(list, ai.apid) {
      SplicedStrictlySorted(list, k, ai);
      forall i, j | 0 <= i < j < |r| ensures r[i].apid < r[j].apid {
        assert r[i] == Spliced(list, k, ai, i) && r[j] == Spliced(list, k, ai, j);
      }
    }
  }

  lemma SplicedMultiset(list: seq<ApidInfo>, k: nat, ai: ApidInfo)
    requires k <= |list|
    ensures multiset(list[..k] + [ai] + list[k..]) == multiset(list) + multiset{ai}
  {
    assert list == list[..k] + list[k..];
  }

  lemma SplicedAt(list: seq<ApidInfo>, k: nat, ai: ApidInfo)
    requires k <= |list|
    ensures var r := list[..k] + [ai] + list[k..];
      |r| == |list| + 1 && forall i :: 0 <= i < |r| ==> r[i] == Spliced(list, k, ai, i)
  {
  }

  /** Element i of the list with `ai` spliced in at position k. */
  function Spliced(list: seq<ApidInfo>, k: nat, ai: ApidInfo, i: nat): ApidInfo
    requires k <= |list| && i <= |list|
  {
    if i < k then list[i] else if i == k then ai else list[i - 1]
  }

  lemma SplicedSorted(list: seq<ApidInfo>, k: nat, ai: ApidInfo)
    requires Sorted(list) && k <= |list|
    requires forall i :: 0 <= i < k ==> list[i].apid <= ai.apid
    requires k < |list| ==> list[k].apid > ai.apid
    ensures forall i, j :: 0 <= i < j <= |list| ==>
      Spliced(list, k, ai, i).apid <= Spliced(list, k, ai, j).apid
  {
  }

  lemma SplicedStrictlySorted(list: seq<ApidInfo>, k: nat, ai: ApidInfo)
    requires StrictlySorted(list) && k <= |list| && !Holds(list, ai.apid)
    requires forall i :: 0 <= i < k ==> list[i].apid <= ai.apid
    requires k < |list| ==> list[k].apid > ai.apid
    ensures forall i, j :: 0 <= i < j <= |list| ==>
      Spliced(list, k, ai, i).apid < Spliced(list, k, ai, j).apid
  {
    forall i | 0 <= i < k ensures list[i].apid < ai.apid {
      assert list[i].apid != ai.apid;
    }
  }
}
