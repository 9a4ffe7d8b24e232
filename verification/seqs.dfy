/** Concatenating a sequence of sequences, and where each part lands. */
module Seqs {

  function Flatten<T>(parts: seq<seq<T>>): seq<T> {
    if |parts| == 0 then [] else Flatten(parts[..|parts| - 1]) + parts[|parts| - 1]
  }

  /** Where part `i` starts in the concatenation starting at `start`. */
  function Offsets<T>(parts: seq<seq<T>>, start: nat): (r: seq<nat>)
    ensures |r| == |parts|
  {
    seq(|parts|, i requires 0 <= i < |parts| => start + |Flatten(parts[..i])|)
  }

  lemma {:induction false} FlattenLength<T>(parts: seq<seq<T>>, k: nat)
    requires forall i :: 0 <= i < |parts| ==> |parts[i]| == k
    ensures |Flatten(parts)| == |parts| * k
  {
    if |parts| > 0 {
      FlattenLength(parts[..|parts| - 1], k);
    }
  }

  lemma FlattenSnoc<T>(parts: seq<seq<T>>, i: nat)
    requires i < |parts|
    ensures Flatten(parts[..i + 1]) == Flatten(parts[..i]) + parts[i]
  {
    assert parts[..i + 1][..i] == parts[..i];
  }

  lemma OffsetsSnoc<T>(parts: seq<seq<T>>, start: nat, i: nat)
    requires i < |parts|
    ensures Offsets(parts[..i + 1], start) == Offsets(parts[..i], start) + [start + |Flatten(parts[..i])|]
  {
    assert forall j :: 0 <= j <= i ==> parts[..i + 1][..j] == parts[..j];
    assert forall j :: 0 <= j < i ==> parts[..i][..j] == parts[..j];
  }

  /** The concatenation of a prefix of the parts is a prefix of the whole. */
  lemma {:induction false} FlattenPrefix<T>(parts: seq<seq<T>>, i: nat)
    requires i <= |parts|
    ensures |Flatten(parts[..i])| <= |Flatten(parts)|
    ensures Flatten(parts)[..|Flatten(parts[..i])|] == Flatten(parts[..i])
    decreases |parts| - i
  {
    if i == |parts| {
      assert parts[..i] == parts;
    } else {
      FlattenPrefix(parts, i + 1);
      FlattenSnoc(parts, i);
    }
  }

  /** In `before + Flatten(parts) + after`, part `i` lies at its offset. */
  lemma PartAtOffset<T>(parts: seq<seq<T>>, before: seq<T>, after: seq<T>, i: nat)
    requires i < |parts|
    ensures var out := before + Flatten(parts) + after;
            var offset := Offsets(parts, |before|)[i];
            && offset + |parts[i]| <= |out|
            && out[offset..offset + |parts[i]|] == parts[i]
  {
    var head := Flatten(parts[..i]);
    PartInFlatten(parts, i);
    SliceMiddle(before, Flatten(parts), after, |head|, |head| + |parts[i]|);
  }

  /** Part `i` follows the concatenation of the parts before it. */
  lemma PartInFlatten<T>(parts: seq<seq<T>>, i: nat)
    requires i < |parts|
    ensures var head := |Flatten(parts[..i])|;
            && head + |parts[i]| <= |Flatten(parts)|
            && Flatten(parts)[head..head + |parts[i]|] == parts[i]
  {
    var all := Flatten(parts);
    var head := Flatten(parts[..i]);
    var upto := Flatten(parts[..i + 1]);
    FlattenSnoc(parts, i);
    FlattenPrefix(parts, i + 1);
    assert all[|head|..|head| + |parts[i]|] == upto[|head|..];
  }

  /** A slice inside the middle of three concatenated sequences. */
  lemma SliceMiddle<T>(a: seq<T>, b: seq<T>, c: seq<T>, i: nat, j: nat)
    requires i <= j <= |b|
    ensures (a + b + c)[|a| + i..|a| + j] == b[i..j]
  {
  }

  /** Offsets grow by at least the shortest part. */
  lemma OffsetsIncrease<T>(parts: seq<seq<T>>, start: nat, least: nat, i: nat, j: nat)
    requires forall k :: 0 <= k < |parts| ==> |parts[k]| >= least
    requires i < j < |parts|
    ensures Offsets(parts, start)[i] + least <= Offsets(parts, start)[j]
  {
    FlattenSnoc(parts, i);
    FlattenPrefix(parts[..j], i + 1);
    assert parts[..j][..i + 1] == parts[..i + 1];
  }

  /** A suffix is the slice up to a later point followed by what remains. */
  lemma SplitSuffix<T>(s: seq<T>, i: nat, j: nat)
    requires i <= j <= |s|
    ensures s[i..] == s[i..j] + s[j..]
  {
  }
}
