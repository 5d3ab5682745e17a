/**
 * The parts of torch that `pack_batch` and `pack_input` hand their integer
 * data to, abstracted to what they keep of it.
 *
 * A packed sequence (`rnn_utils.PackedSequence`) is modelled by the valid
 * steps of each example, in batch order, and the lengths it was packed
 * with; the time-major interleaving and the `batch_sizes` vector torch
 * computes from those lengths are not modelled. An embedding table is a
 * function from a token id to a vector of any type `V`, applied to each id.
 */
module Packing {

  /** A packed batch: `rows[i]` holds the `lengths[i]` valid steps of example `i`. */
  datatype Packed<T> = Packed(rows: seq<seq<T>>, lengths: seq<nat>)

  /** Lengths are sorted longest first, as `pack_padded_sequence` demands by default. */
  ghost predicate NonIncreasing(lens: seq<nat>) {
    forall i, j :: 0 <= i < j < |lens| ==> lens[j] <= lens[i]
  }

  /** `rnn_utils.pack_padded_sequence(padded, lens, batch_first=True)`:
      keeps the first `lens[i]` entries of row `i` and drops the padding. */
  function PackPadded<T>(padded: seq<seq<T>>, lens: seq<nat>): (p: Packed<T>)
    requires |padded| == |lens|
    requires forall i :: 0 <= i < |lens| ==> lens[i] <= |padded[i]|
    requires NonIncreasing(lens)
    ensures p.lengths == lens && |p.rows| == |padded|
    ensures forall i :: 0 <= i < |padded| ==> p.rows[i] == padded[i][..lens[i]]
  {
    Packed(seq(|padded|, i requires 0 <= i < |padded| => padded[i][..lens[i]]), lens)
  }

  /** An embedding lookup over a sequence of ids: one vector per id, in order. */
  function Embed<V>(ids: seq<int>, embed: int -> V): (e: seq<V>)
    ensures |e| == |ids|
    ensures forall k :: 0 <= k < |ids| ==> e[k] == embed(ids[k])
  {
    seq(|ids|, k requires 0 <= k < |ids| => embed(ids[k]))
  }

  /** `PackedSequence(data=embeddings(p.data), batch_sizes=p.batch_sizes)`:
      embeds every packed id and keeps the lengths. */
  function EmbedPacked<V>(p: Packed<int>, embed: int -> V): (q: Packed<V>)
    ensures q.lengths == p.lengths && |q.rows| == |p.rows|
    ensures forall i :: 0 <= i < |p.rows| ==> q.rows[i] == Embed(p.rows[i], embed)
  {
    Packed(seq(|p.rows|, i requires 0 <= i < |p.rows| => Embed(p.rows[i], embed)), p.lengths)
  }
}
