// GeneratorSet: the per-node set of generators, an array GArr of n slots
// whose non-null prefix holds vectors in echelon form. The ghost field
// Contents is that prefix; every method is proved to change it exactly as
// the functions of GeneratorSpec say.

module GeneratorSets {
  import opened Arith
  import opened Options
  import opened Ring
  import opened Lead
  import opened GeneratorSpec

  class GeneratorSet {
    const b: BaseFunctions
    const GArr: array<Option<LeadVector>>
    ghost var Contents: seq<LeadVector>

    /** GArr holds Contents in its first slots and null after them. */
    ghost predicate Stored()
      reads this, GArr
    {
      && GArr.Length == b.n && |Contents| <= b.n
      && (forall k :: 0 <= k < |Contents| ==> GArr[k] == Some(Contents[k]))
      && (forall k :: |Contents| <= k < b.n ==> GArr[k] == None)
    }

    /** Stored, and the stored vectors are in echelon form. */
    ghost predicate Valid()
      reads this, GArr
    {
      b.Valid() && Stored() && Canonical(b, Contents)
    }

    /** new GeneratorSet(parent, b): n empty slots. */
    constructor (b: BaseFunctions)
      requires b.Valid()
      ensures Valid() && this.b == b && Contents == [] && fresh(GArr)
    {
      this.b := b;
      GArr := new Option<LeadVector>[b.n](_ => None);
      Contents := [];
    }

    /** RemoveVector: shift the vectors right of slot ri one slot to the left and clear the last one. */
    method RemoveVector(ri: nat)
      requires Stored() && ri < |Contents|
      modifies this, GArr
      ensures Stored() && Contents == RemoveAt(old(Contents), ri)
    {
      var i := ri;
      while i < b.n - 1 && GArr[i + 1] != None
        invariant Contents == old(Contents)
        invariant ri <= i < |Contents|
        invariant forall k :: 0 <= k < ri ==> GArr[k] == Some(Contents[k])
        invariant forall k :: ri <= k < i ==> GArr[k] == Some(Contents[k + 1])
        invariant forall k :: i <= k < |Contents| ==> GArr[k] == Some(Contents[k])
        invariant forall k :: |Contents| <= k < b.n ==> GArr[k] == None
        decreases b.n - i
      {
        GArr[i] := GArr[i + 1];
        i := i + 1;
      }
      ghost var h := RemoveAt(Contents, ri);
      assert i == |h|;
      GArr[i] := None;
      assert forall k :: 0 <= k < |h| ==> GArr[k] == Some(h[k]);
      Contents := h;
    }

    /** GArr[i] = v, at a used slot or at the first free one. */
    method StoreAt(i: nat, v: LeadVector)
      requires Stored() && i <= |Contents| && i < b.n
      modifies this, GArr
      ensures Stored() && Contents == Overwrite(old(Contents), i, v)
    {
      ghost var h := Overwrite(Contents, i, v);
      GArr[i] := Some(v);
      Contents := h;
    }

    /**
     * InsertVector: put vector at slot ii, shifting the later vectors one
     * slot to the right. It throws when the occupant of slot ii does not
     * have a larger leading index; AddVector never lets that happen, which
     * the precondition states.
     */
    method InsertVector(ii: nat, vector: LeadVector)
      requires Stored() && ii <= |Contents| && |Contents| < b.n
      requires ii < |Contents| ==> Contents[ii].li > vector.li
      modifies this, GArr
      ensures Stored() && Contents == InsertAt(old(Contents), ii, vector)
    {
      if GArr[ii] != None {
        if GArr[ii].value.li > vector.li {
          var i: int := b.n - 2;
          while i >= ii
            invariant Contents == old(Contents)
            invariant ii - 1 <= i <= b.n - 2
            invariant forall k :: 0 <= k <= i + 1 ==> GArr[k] == old(GArr[k])
            invariant forall k :: i + 2 <= k < b.n ==> GArr[k] == old(GArr[k - 1])
            decreases i
          {
            GArr[i + 1] := GArr[i];
            i := i - 1;
          }
          GArr[ii] := Some(vector);
          Contents := InsertAt(Contents, ii, vector);
          return;
        } else {
          assert false;
        }
      }
      GArr[ii] := Some(vector);
      Contents := InsertAt(Contents, ii, vector);
    }

    /** AddEven: add 2^(w - r) * tvr (mod m), whose leading entry cancels, unless it is zero. */
    method AddEven(tvr: LeadVector)
      requires Valid() && WfVec(b, tvr) && tvr.li >= 0 && EvenNonzero(tvr.Lentry())
      modifies this, GArr
      ensures Valid() && Contents == GeneratorSpec.AddEven(b, old(Contents), tvr)
      decreases b.n - tvr.li, 0
    {
      var red := Reduction(b, tvr.Lentry());
      var x := Pow2(b.w - red.0);
      var l := |tvr.vr|;
      var wr := new int[l];
      // every coordinate is in [0, m), so C#'s % agrees with Dafny's here
      for i := 0 to l
        modifies wr
        invariant forall k :: 0 <= k < i ==> wr[k] == (x * tvr.vr[k]) % b.m
      {
        wr[i] := (x * tvr.vr[i]) % b.m;
      }
      assert wr[..] == Scale(x, tvr.vr, b.m);
      var twr := NewLeadVector(wr[..]);
      CompanionAbove(b, tvr);
      if twr.li >= 0 {
        var _ := AddVector(twr);
      }
    }

    /**
     * AddVector: merge tvr into the echelon form. Returns whether the stored
     * vectors changed; the new contents and the flag are those of
     * GeneratorSpec.Add.
     */
    method AddVector(tvr: LeadVector) returns (change: bool)
      requires Valid() && WfVec(b, tvr) && tvr.li >= 0
      modifies this, GArr
      ensures Valid() && (Contents, change) == GeneratorSpec.Add(b, old(Contents), tvr)
      decreases b.n - tvr.li, 4
    {
      var i := FindSlot(tvr);
      if GArr[i] == None {
        AppendLast(i, tvr);
        change := true;
      } else if GArr[i].value.li == tvr.li {
        change := MergeSameLead(i, tvr);
      } else {
        // the scan stopped at a larger leading index: insert before it
        assert forall k :: i <= k < |Contents| ==> Contents[k].li > tvr.li by {
          forall k | i < k < |Contents|
            ensures Contents[k].li > tvr.li
          {
            assert Contents[i].li < Contents[k].li;
          }
        }
        CanonicalBound(b, Contents, tvr.li);
        InsertCanonical(b, Contents, i, tvr);
        InsertVector(i, tvr);
        change := true;
      }
    }

    /** The scan of AddVector: the first slot that is free or holds a leading index at least tvr's. */
    method FindSlot(tvr: LeadVector) returns (i: nat)
      requires Valid() && WfVec(b, tvr) && tvr.li >= 0
      ensures i == Position(Contents, tvr.li) && i < b.n
    {
      i := 0;
      while GArr[i] != None
        invariant 0 <= i <= |Contents| && i < b.n
        invariant forall k :: 0 <= k < i ==> Contents[k].li < tvr.li
        decreases |Contents| - i
      {
        if GArr[i].value.li >= tvr.li {
          break;
        }
        i := i + 1;
        if i == |Contents| {
          CanonicalBound(b, Contents, tvr.li);
        }
      }
      PositionAt(Contents, tvr.li, i);
    }

    /**
     * The branch of AddVector where every stored vector has a smaller
     * leading index: AddEven(tvr) when its lead is even, then GArr[i] = tvr.
     */
    method AppendLast(i: nat, tvr: LeadVector)
      requires Valid() && WfVec(b, tvr) && tvr.li >= 0
      requires i == |Contents| && Position(Contents, tvr.li) == i
      modifies this, GArr
      ensures Valid() && (Contents, true) == GeneratorSpec.AddAtEnd(b, old(Contents), tvr)
      decreases b.n - tvr.li, 1
    {
      ghost var g := Contents;
      CanonicalBound(b, g, tvr.li);
      PositionAt(g, tvr.li + 1, i);
      KeepsSelf(b, g, tvr.li + 1);
      if tvr.Lentry() != 0 && tvr.Lentry() % 2 == 0 {
        AddEven(tvr);
      }
      OverwriteCanonical(b, g, Contents, tvr);
      StoreAt(i, tvr);
    }

    /**
     * The branch of AddVector where slot i holds a vector s with tvr's
     * leading index. With rg, rv the valuations of the two leads, the one
     * with the smaller valuation keeps the slot (the source swaps its local
     * variables to reuse one formula; the two orders are written out here)
     * and their combination, whose lead cancels, is added.
     */
    method MergeSameLead(i: nat, tvr: LeadVector) returns (change: bool)
      requires Valid() && WfVec(b, tvr) && tvr.li >= 0
      requires i == Position(Contents, tvr.li) && i < |Contents| && Contents[i].li == tvr.li
      modifies this, GArr
      ensures Valid() && (Contents, change) == GeneratorSpec.AddSameLead(b, old(Contents), tvr, i)
      decreases b.n - tvr.li, 3
    {
      var rg := Reduction(b, GArr[i].value.Lentry()).0;
      var rv := Reduction(b, tvr.Lentry()).0;
      if rg > rv {
        change := MergeDisplacing(i, tvr);
      } else {
        change := MergeCombined(i, tvr);
      }
    }

    /** rg <= rv: s stays, and dg * tvr - 2^(rv - rg) * dv * s is added unless it is zero. */
    method MergeCombined(i: nat, tvr: LeadVector) returns (change: bool)
      requires Valid() && WfVec(b, tvr) && tvr.li >= 0
      requires i == Position(Contents, tvr.li) && i < |Contents| && Contents[i].li == tvr.li
      requires Reduction(b, Contents[i].Lentry()).0 <= Reduction(b, tvr.Lentry()).0
      modifies this, GArr
      ensures Valid() && (Contents, change) == AddCombined(b, old(Contents), tvr, i)
      decreases b.n - tvr.li, 2
    {
      var s := GArr[i].value;
      var redG := Reduction(b, s.Lentry());
      var redV := Reduction(b, tvr.Lentry());
      var twr := CombineVectors(b, tvr, s, redG.1, redV.1, redG.0, redV.0);
      ResolventAbove(b, tvr, s, redG.1, redV.1, redG.0, redV.0);
      change := false;
      if twr.li >= 0 {
        change := AddVector(twr);
      }
    }

    /**
     * rg > rv: tvr takes slot i (RemoveVector, AddEven, InsertVector), then
     * dv * s - 2^(rg - rv) * dg * tvr is added unless it is zero; the set
     * has changed either way.
     */
    method MergeDisplacing(i: nat, tvr: LeadVector) returns (change: bool)
      requires Valid() && WfVec(b, tvr) && tvr.li >= 0
      requires i == Position(Contents, tvr.li) && i < |Contents| && Contents[i].li == tvr.li
      requires Reduction(b, Contents[i].Lentry()).0 > Reduction(b, tvr.Lentry()).0
      modifies this, GArr
      ensures Valid() && (Contents, change) == AddDisplacing(b, old(Contents), tvr, i)
      decreases b.n - tvr.li, 2
    {
      var s := GArr[i].value;
      var redG := Reduction(b, s.Lentry());
      var redV := Reduction(b, tvr.Lentry());
      DisplaceAt(i, tvr);
      var twr := CombineVectors(b, s, tvr, redV.1, redG.1, redV.0, redG.0);
      ResolventAbove(b, s, tvr, redV.1, redG.1, redV.0, redG.0);
      if twr.li >= 0 {
        var _ := AddVector(twr);
      }
      change := true;
    }

    /** RemoveVector(i); AddEven(tvr) when its lead is even; InsertVector(i, tvr): tvr takes slot i. */
    method DisplaceAt(i: nat, tvr: LeadVector)
      requires Valid() && WfVec(b, tvr) && tvr.li >= 0
      requires i == Position(Contents, tvr.li) && i < |Contents| && Contents[i].li == tvr.li
      modifies this, GArr
      ensures Valid() && Contents == Displace(b, old(Contents), tvr, i)
      decreases b.n - tvr.li, 1
    {
      ghost var g := Contents;
      RemoveCanonical(b, g, i);
      RemoveVector(i);
      ghost var g1 := Contents;
      KeepsSelf(b, g1, tvr.li + 1);
      if tvr.Lentry() != 0 && tvr.Lentry() % 2 == 0 {
        AddEven(tvr);
      }
      SlotAfterRemoval(b, g1, Contents, tvr, i);
      InsertVector(i, tvr);
      assert Contents == Displace(b, g, tvr, i);
    }
  }

  /**
   * The combination loop of AddVector, for rs <= rt:
   * ((ds * t[j] - 2^(rt - rs) * dt * s[j]) % m + m) % m for every coordinate j.
   */
  method CombineVectors(b: BaseFunctions, t: LeadVector, s: LeadVector, ds: int, dt: int, rs: nat, rt: nat)
    returns (w: LeadVector)
    requires b.WellFormed() && rs <= rt && |t.vr| == |s.vr|
    ensures w == Resolvent(b, t, s, ds, dt, rs, rt)
  {
    var x := Pow2(rt - rs) * dt;
    var l := |t.vr|;
    var wr := new int[l];
    for j := 0 to l
      invariant forall k :: 0 <= k < j ==> wr[k] == (ds * t.vr[k] - x * s.vr[k]) % b.m
    {
      wr[j] := Rem(Rem(ds * t.vr[j] - x * s.vr[j], b.m) + b.m, b.m);
      RemNormalises(ds * t.vr[j] - x * s.vr[j], b.m);
    }
    w := NewLeadVector(wr[..]);
  }
}
