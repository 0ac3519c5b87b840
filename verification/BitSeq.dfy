/** Allocation bitmaps as the code above bitmap.c sees them. */
module BitSeq {

  /** What bitmap_scan answers for one bit; |bits| stands for a full map. */
  function FirstClear(bits: seq<bool>): (r: nat)
    ensures r <= |bits|
    ensures r < |bits| ==> !bits[r]
    ensures forall i :: 0 <= i < r ==> bits[i]
  {
    if bits == [] || !bits[0] then 0 else 1 + FirstClear(bits[1..])
  }

  /** bits with lo..lo+n set to value. */
  function Ranged(bits: seq<bool>, lo: nat, n: nat, value: bool): (r: seq<bool>)
    ensures |r| == |bits|
    ensures forall i :: 0 <= i < |bits| ==> r[i] == if lo <= i < lo + n then value else bits[i]
  {
    seq(|bits|, i requires 0 <= i < |bits| => if lo <= i < lo + n then value else bits[i])
  }

  function CountClear(bits: seq<bool>): nat {
    if bits == [] then 0 else (if bits[0] then 0 else 1) + CountClear(bits[1..])
  }

  /** A clear bit is found iff there is one, and setting it leaves one fewer. */
  lemma {:induction false} FirstClearCounts(bits: seq<bool>)
    ensures FirstClear(bits) < |bits| <==> CountClear(bits) > 0
    ensures FirstClear(bits) < |bits| ==> CountClear(bits[FirstClear(bits) := true]) == CountClear(bits) - 1
  {
    if bits != [] {
      FirstClearCounts(bits[1..]);
      if bits[0] && FirstClear(bits) < |bits| {
        assert bits[FirstClear(bits) := true][1..] == bits[1..][FirstClear(bits[1..]) := true];
      } else if !bits[0] {
        assert bits[0 := true][1..] == bits[1..];
      }
    }
  }
}
