/** Equal slots of a flat buffer. */
module Slots {
  import opened Arithmetic
  import opened Words
  import opened Splicing

  function SlotAt(data: seq<uint8>, i: nat, size: nat): seq<uint8> {
    if (i + 1) * size <= |data| then data[i * size..(i + 1) * size] else []
  }

  lemma SlotBounds(i: nat, n: nat, size: nat)
    requires i < n
    ensures 0 <= i * size && (i + 1) * size == i * size + size <= n * size
  {
    Monotone(i, n, size);
  }

  lemma SlotUnfold(data: seq<uint8>, i: nat, size: nat)
    requires 0 <= i * size <= (i + 1) * size <= |data|
    ensures SlotAt(data, i, size) == data[i * size..(i + 1) * size]
  {
  }

  lemma SlicesJoin(data: seq<uint8>, a: nat, b: nat, c: nat)
    requires a <= b <= c <= |data|
    ensures data[a..b] + data[b..c] == data[a..c]
  {
  }

  /** A slice that starts with the spliced stretch, or lies clear of it. */
  lemma SplicedSlice(data: seq<uint8>, at: nat, t: seq<uint8>, lo: nat, hi: nat)
    requires at + |t| <= |data| && lo <= hi <= |data|
    requires (lo == at && at + |t| <= hi) || hi <= at || at + |t| <= lo
    ensures Splice(data, at, t)[lo..hi] == if lo == at && at + |t| <= hi then t + data[lo..hi][|t|..] else data[lo..hi]
  {
    var next := Splice(data, at, t);
    if lo == at && at + |t| <= hi {
      assert next[lo..hi] == t + data[lo..hi][|t|..];
    } else {
      assert next[lo..hi] == data[lo..hi];
    }
  }

  /** Bytes spliced between slots w and `end` leave the other slots alone. */
  lemma SlotOutside(data: seq<uint8>, at: nat, bytes: seq<uint8>, w: nat, end: nat, i: nat, n: nat, size: nat)
    requires |data| == n * size && i < n && (i < w || end <= i)
    requires w * size <= at && at + |bytes| <= end * size && at + |bytes| <= |data|
    ensures SlotAt(Splice(data, at, bytes), i, size) == SlotAt(data, i, size)
  {
    hide SlotAt, Splice;
    SlotBounds(i, n, size);
    Monotone(i, w, size);
    Monotone(end, i, size);
    SlotUnfold(data, i, size);
    SlotUnfold(Splice(data, at, bytes), i, size);
    SplicedSlice(data, at, bytes, i * size, i * size + size);
  }
}
