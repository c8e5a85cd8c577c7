// LeadVector: an immutable vector together with its leading index (the
// first nonzero coordinate, -1 for the zero vector) and leading entry.

module Lead {

  /** The least index holding a nonzero entry, or -1 when every entry is zero. */
  function LeadIndex(vr: seq<int>): (li: int)
    ensures -1 <= li < |vr|
    ensures li == -1 <==> forall k :: 0 <= k < |vr| ==> vr[k] == 0
    ensures li >= 0 ==> vr[li] != 0 && forall k :: 0 <= k < li ==> vr[k] == 0
  {
    if |vr| == 0 then -1
    else if vr[0] != 0 then 0
    else
      var rest := LeadIndex(vr[1..]);
      if rest == -1 then -1 else rest + 1
  }

  /** The readonly fields of a LeadVector object: the vector and the index its constructor computed. */
  datatype LeadVector = LeadVector(vr: seq<int>, li: int)
  {
    /** The constructor's invariant: li is the leading index of vr. */
    ghost predicate Valid()
    {
      li == LeadIndex(vr)
    }

    /** Lentry: vr[li], or 0 when li is out of range (the zero vector). */
    function Lentry(): (e: int)
      ensures Valid() ==> (e != 0 <==> li >= 0)
      ensures Valid() && li >= 0 ==> e == vr[li]
    {
      if 0 <= li < |vr| then vr[li] else 0
    }
  }

  /** GetLeadIndex: scan left to right and stop at the first nonzero entry. */
  method GetLeadIndex(vr: seq<int>) returns (li: int)
    ensures li == LeadIndex(vr)
  {
    var k := |vr|;
    li := -1;
    var i := 0;
    while i < k
      invariant 0 <= i <= k
      invariant forall j :: 0 <= j < i ==> vr[j] == 0
    {
      if vr[i] != 0 {
        li := i;
        return;
      }
      i := i + 1;
    }
  }

  /** new LeadVector(vr). */
  method NewLeadVector(vr: seq<int>) returns (lv: LeadVector)
    ensures lv.vr == vr && lv.Valid()
  {
    var li := GetLeadIndex(vr);
    lv := LeadVector(vr, li);
  }
}
