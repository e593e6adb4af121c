/** What the two property masks of an iteration select (parse_algs_find in src/tpm2_cmds.c). */
module MaskFacts {
  import opened Bytes
  import opened Payload

  lemma {:induction false} BitAndBit(a: nat, b: nat, j: nat)
    ensures HasBit(BitAnd(a, b), j) <==> HasBit(a, j) && HasBit(b, j)
    decreases j
  {
    if a == 0 || b == 0 {
      NoBits(j);
    } else {
      var low, high := (a % 2) * (b % 2), BitAnd(a / 2, b / 2);
      assert BitAnd(a, b) == low + 2 * high && (low == 0 || low == 1);
      if j > 0 {
        assert (low + 2 * high) / 2 == high;
        BitAndBit(a / 2, b / 2, j - 1);
      }
    }
  }

  lemma {:induction false} NoBits(j: nat)
    ensures !HasBit(0, j)
  {
    if j > 0 {
      NoBits(j - 1);
    }
  }

  /** A number other than zero has a bit, a number other than another differs from it in one. */
  lemma {:induction false} BitApart(a: nat, b: nat) returns (j: nat)
    requires a != b
    ensures HasBit(a, j) != HasBit(b, j)
    decreases a + b
  {
    if a % 2 != b % 2 {
      j := 0;
    } else {
      var k := BitApart(a / 2, b / 2);
      j := k + 1;
    }
  }

  predicate PassesBit(props: u32, mustSet: u32, mustClear: u32, j: nat) {
    (HasBit(mustSet, j) ==> HasBit(props, j)) && !(HasBit(mustClear, j) && HasBit(props, j))
  }

  /** An algorithm passes exactly when all bits of the first mask are set in its properties and none of the second. */
  lemma MasksSelect(props: u32, mustSet: u32, mustClear: u32)
    ensures Matches(props, mustSet, mustClear) <==>
      forall j :: PassesBit(props, mustSet, mustClear, j)
  {
    forall j: nat
      ensures Matches(props, mustSet, mustClear) ==> PassesBit(props, mustSet, mustClear, j)
    {
      BitAndBit(props, mustSet, j);
      BitAndBit(props, mustClear, j);
      NoBits(j);
    }
    if BitAnd(props, mustSet) != mustSet {
      var j := BitApart(BitAnd(props, mustSet), mustSet);
      BitAndBit(props, mustSet, j);
      assert !PassesBit(props, mustSet, mustClear, j);
    }
    if BitAnd(props, mustClear) != 0 {
      var j := BitApart(BitAnd(props, mustClear), 0);
      BitAndBit(props, mustClear, j);
      NoBits(j);
      assert !PassesBit(props, mustSet, mustClear, j);
    }
  }

  /** The filter keeps every algorithm that passes, behind those kept before it. */
  lemma {:induction false} FilterKeeps(s: seq<Alg>, mustSet: u32, mustClear: u32, i: nat)
    requires i < |s| && Matches(s[i].value, mustSet, mustClear)
    ensures var f, k := Filter(s, mustSet, mustClear), |Filter(s[..i], mustSet, mustClear)|; k < |f| && f[k] == s[i]
  {
    var last := |s| - 1;
    if i < last {
      FilterKeeps(s[..last], mustSet, mustClear, i);
      assert s[..last][..i] == s[..i];
    }
  }

  /** It keeps nothing else. */
  lemma {:induction false} FilterOnly(s: seq<Alg>, mustSet: u32, mustClear: u32, k: nat) returns (i: nat)
    requires k < |Filter(s, mustSet, mustClear)|
    ensures i < |s| && Matches(s[i].value, mustSet, mustClear) && Filter(s, mustSet, mustClear)[k] == s[i]
    ensures k == |Filter(s[..i], mustSet, mustClear)|
  {
    var last := |s| - 1;
    if k < |Filter(s[..last], mustSet, mustClear)| {
      i := FilterOnly(s[..last], mustSet, mustClear, k);
      assert s[..last][..i] == s[..i];
    } else {
      i := last;
    }
  }
}
