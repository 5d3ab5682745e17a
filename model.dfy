/**
 * The integer side of batch preparation for the phrase model
 * (ch12/libbots/model.py): `pack_batch`, `pack_input` and
 * `get_encoded_item`. Token ids are unbounded integers, tensors are nested
 * sequences, and an embedding table is a function parameter `embed`.
 */
module Model {
  import ListSort
  import opened Packing

  /** A phrase as a sequence of token ids. */
  type Ids = seq<int>

  /** One training example: the input phrase and the reply phrase. */
  datatype Pair = Pair(input: Ids, output: Ids)

  /** `zip(*batch)` over an empty list yields nothing to unpack into two names. */
  datatype Error = EmptyBatch

  datatype Result<T> = Ok(value: T) | Err(error: Error)

  /** What `pack_batch` returns: the packed, embedded inputs; one packed, embedded
      target per example; and the input and output ids in sorted order. */
  datatype PackedBatch<V> = PackedBatch(input: Packed<V>, targets: seq<Packed<V>>,
                                        inputIdx: seq<Ids>, outputIdx: seq<Ids>)

  /** An LSTM state tensor of shape (layers, batch, hidden):
      `state[l][b]` is the hidden vector of batch item `b` in layer `l`. */
  type State<T> = seq<seq<T>>

  /** The sort key of `pack_batch`: the length of the input phrase. */
  function InputLen(p: Pair): int {
    |p.input|
  }

  /** One bound of a Python slice: a negative bound counts from the end,
      and the result is clamped to `0..n`. */
  function SliceBound(b: int, n: nat): (c: nat)
    ensures c <= n
  {
    if b < 0 then (if b + n < 0 then 0 else b + n)
    else if b > n then n
    else b
  }

  /** Python's `s[start:stop]` with step 1 (also what a tensor slice does). */
  function PySlice<T>(s: seq<T>, start: int, stop: int): seq<T> {
    var lo, hi := SliceBound(start, |s|), SliceBound(stop, |s|);
    if lo <= hi then s[lo..hi] else []
  }

  /** `input_idx, output_idx = zip(*batch)`: the inputs and the outputs as two
      aligned sequences; an empty batch has nothing to unpack. */
  function Unzip(batch: seq<Pair>): (r: Result<(seq<Ids>, seq<Ids>)>)
    ensures r.Err? <==> batch == []
    ensures r.Ok? ==> |r.value.0| == |batch| && |r.value.1| == |batch|
    ensures r.Ok? ==> forall i :: 0 <= i < |batch| ==> batch[i] == Pair(r.value.0[i], r.value.1[i])
  {
    if batch == [] then Err(EmptyBatch)
    else Ok((seq(|batch|, i requires 0 <= i < |batch| => batch[i].input),
             seq(|batch|, i requires 0 <= i < |batch| => batch[i].output)))
  }

  /** `list(map(len, input_idx))` */
  function Lengths(xs: seq<Ids>): (lens: seq<nat>)
    ensures |lens| == |xs|
    ensures forall i :: 0 <= i < |xs| ==> lens[i] == |xs[i]|
  {
    seq(|xs|, i requires 0 <= i < |xs| => |xs[i]|)
  }

  /** `out[:-1]`: the reply without its final (end) token; an empty reply stays empty. */
  function StripEnd(out: Ids): (s: Ids)
    ensures |s| == if out == [] then 0 else |out| - 1
    ensures out == [] ==> s == []
    ensures out != [] ==> out == s + [out[|out| - 1]]
  {
    PySlice(out, 0, -1)
  }

  /** `np.zeros((len(batch), lens[0]))` filled row by row with `input_mat[idx, :len(x)] = x`.
      The width is the first input's length; no input may be longer. */
  method PadInputs(inputs: seq<Ids>) returns (mat: array2<int>)
    requires |inputs| > 0
    requires forall i :: 0 <= i < |inputs| ==> |inputs[i]| <= |inputs[0]|
    ensures mat.Length0 == |inputs| && mat.Length1 == |inputs[0]|
    ensures forall i, k :: 0 <= i < mat.Length0 && 0 <= k < mat.Length1 ==>
              mat[i, k] == if k < |inputs[i]| then inputs[i][k] else 0
  {
    mat := new int[|inputs|, |inputs[0]|]((i, k) => 0);
    for idx := 0 to |inputs|
      invariant forall i, k :: 0 <= i < idx && 0 <= k < mat.Length1 ==>
                  mat[i, k] == if k < |inputs[i]| then inputs[i][k] else 0
      invariant forall i, k :: idx <= i < mat.Length0 && 0 <= k < mat.Length1 ==> mat[i, k] == 0
    {
      var x := inputs[idx];
      for k := 0 to |x|
        invariant forall i, c :: 0 <= i < idx && 0 <= c < mat.Length1 ==>
                    mat[i, c] == if c < |inputs[i]| then inputs[i][c] else 0
        invariant forall c :: 0 <= c < k ==> mat[idx, c] == x[c]
        invariant forall c :: k <= c < mat.Length1 ==> mat[idx, c] == 0
        invariant forall i, c :: idx < i < mat.Length0 && 0 <= c < mat.Length1 ==> mat[i, c] == 0
      {
        mat[idx, k] := x[k];
      }
    }
  }

  /** The rows of a matrix, as the padded tensor handed to `pack_padded_sequence`. */
  function Rows(mat: array2<int>): (rows: seq<seq<int>>)
    reads mat
    ensures |rows| == mat.Length0
    ensures forall i :: 0 <= i < mat.Length0 ==>
              |rows[i]| == mat.Length1 && forall k :: 0 <= k < mat.Length1 ==> rows[i][k] == mat[i, k]
  {
    seq(mat.Length0, i reads mat requires 0 <= i < mat.Length0 =>
      seq(mat.Length1, k reads mat requires 0 <= k < mat.Length1 => mat[i, k]))
  }

  /** Dropping the padding from each row of the padded matrix gives back the inputs. */
  lemma UnpadRows(mat: array2<int>, inputs: seq<Ids>)
    requires mat.Length0 == |inputs|
    requires forall i :: 0 <= i < |inputs| ==> |inputs[i]| <= mat.Length1
    requires forall i, k :: 0 <= i < mat.Length0 && 0 <= k < mat.Length1 ==>
               mat[i, k] == if k < |inputs[i]| then inputs[i][k] else 0
    ensures forall i :: 0 <= i < |inputs| ==> Rows(mat)[i][..|inputs[i]|] == inputs[i]
  {
  }

  /** The part of `pack_batch` that packs the sorted inputs: record their lengths, pad
      them into a matrix as wide as the first (longest) one, pack the matrix with those
      lengths and embed the packed ids. Packing drops exactly the padding. */
  method PackInputs<V>(inputIdx: seq<Ids>, embed: int -> V) returns (p: Packed<V>)
    requires |inputIdx| > 0
    requires forall i, j :: 0 <= i < j < |inputIdx| ==> |inputIdx[j]| <= |inputIdx[i]|
    ensures p.lengths == Lengths(inputIdx)
    ensures |p.rows| == |inputIdx|
    ensures forall i :: 0 <= i < |inputIdx| ==> p.rows[i] == Embed(inputIdx[i], embed)
  {
    var lens := Lengths(inputIdx);
    var inputMat := PadInputs(inputIdx);
    var rows := Rows(inputMat);
    UnpadRows(inputMat, inputIdx);
    var inputSeq := PackPadded(rows, lens);
    p := EmbedPacked(inputSeq, embed);
  }

  /** The loop of `pack_batch` that prepares the decoder targets: for each reply,
      drop its end token, embed the rest and pack it as a batch of one. */
  method PackTargets<V>(outputIdx: seq<Ids>, embed: int -> V) returns (targets: seq<Packed<V>>)
    ensures |targets| == |outputIdx|
    ensures forall i :: 0 <= i < |outputIdx| ==>
              && targets[i].lengths == [if outputIdx[i] == [] then 0 else |outputIdx[i]| - 1]
              && targets[i].rows == [Embed(StripEnd(outputIdx[i]), embed)]
  {
    targets := [];
    for i := 0 to |outputIdx|
      invariant |targets| == i
      invariant forall j :: 0 <= j < i ==>
                  && targets[j].lengths == [if outputIdx[j] == [] then 0 else |outputIdx[j]| - 1]
                  && targets[j].rows == [Embed(StripEnd(outputIdx[j]), embed)]
    {
      var s := StripEnd(outputIdx[i]);
      var outV := Embed(s, embed);
      assert outV[..|s|] == outV;
      var outSeq := PackPadded([outV], [|s|]);
      targets := targets + [outSeq];
    }
  }

  /** What `pack_batch` relies on after its sort: input lengths are non-increasing, and
      the first is the longest of the batch. */
  lemma SortedByInputLen(original: seq<Pair>, sorted: seq<Pair>)
    requires sorted == ListSort.SortDesc(original, InputLen)
    ensures |sorted| == |original|
    ensures forall i, j :: 0 <= i < j < |sorted| ==> |sorted[j].input| <= |sorted[i].input|
    ensures |sorted| > 0 ==> |sorted[0].input| == ListSort.MaxKey(original, InputLen)
  {
    ListSort.SortDescSorted(original, InputLen);
    if |sorted| > 0 {
      ListSort.SortDescHeadIsMax(original, InputLen);
    }
  }

  /** `pack_batch(batch, embeddings)`: sorts `batch` in place, longest input first and
      stably; splits it; pads, packs and embeds the inputs; and strips, embeds and packs
      each reply as its own target. An empty batch fails after the (empty) sort. */
  method PackBatch<V>(batch: array<Pair>, embed: int -> V) returns (r: Result<PackedBatch<V>>)
    modifies batch
    ensures batch[..] == ListSort.SortDesc(old(batch[..]), InputLen)
    ensures r.Err? <==> batch.Length == 0
    ensures r.Ok? ==>
              && |r.value.inputIdx| == batch.Length && |r.value.outputIdx| == batch.Length
              && forall i :: 0 <= i < batch.Length ==> batch[i] == Pair(r.value.inputIdx[i], r.value.outputIdx[i])
    ensures r.Ok? ==>
              && r.value.input.lengths == Lengths(r.value.inputIdx)
              && r.value.input.lengths[0] == ListSort.MaxKey(old(batch[..]), InputLen)
              && |r.value.input.rows| == batch.Length
              && forall i :: 0 <= i < batch.Length ==> r.value.input.rows[i] == Embed(r.value.inputIdx[i], embed)
    ensures r.Ok? ==>
              && |r.value.targets| == batch.Length
              && forall i :: 0 <= i < batch.Length ==>
                   && r.value.targets[i].lengths == [|StripEnd(r.value.outputIdx[i])|]
                   && r.value.targets[i].rows == [Embed(StripEnd(r.value.outputIdx[i]), embed)]
  {
    ghost var original := batch[..];
    ListSort.SortInPlace(batch, InputLen);
    var sorted := batch[..];
    SortedByInputLen(original, sorted);
    var split := Unzip(sorted);
    if split.Err? {
      return Err(split.error);
    }
    var (inputIdx, outputIdx) := split.value;
    var embInputSeq := PackInputs(inputIdx, embed);
    var targets := PackTargets(outputIdx, embed);
    r := Ok(PackedBatch(embInputSeq, targets, inputIdx, outputIdx));
  }

  /** `pack_input(input_data, embeddings)`: one phrase packed and embedded as a batch
      of one whose only length is the phrase's length; no id is lost. */
  function PackInput<V>(inputData: Ids, embed: int -> V): (p: Packed<V>)
    ensures p.lengths == [|inputData|]
    ensures p.rows == [Embed(inputData, embed)]
  {
    assert inputData[..|inputData|] == inputData;
    EmbedPacked(PackPadded([inputData], [|inputData|]), embed)
  }

  /** `row[index:index + 1]`: batch item `index` as a batch of one when it exists
      (a negative index counts from the end, except that `-1:0` is empty), else nothing. */
  function ItemSlice<T>(row: seq<T>, index: int): (r: seq<T>)
    ensures 0 <= index < |row| ==> r == [row[index]]
    ensures -|row| <= index < -1 ==> r == [row[index + |row|]]
    ensures index >= |row| || index == -1 || index < -|row| ==> r == []
  {
    PySlice(row, index, index + 1)
  }

  /** `get_encoded_item(encoded, index)`: takes the same `index:index + 1` slice of the
      batch dimension from both the hidden and the cell state, in every layer. */
  function GetEncodedItem<T>(encoded: (State<T>, State<T>), index: int): (r: (State<T>, State<T>))
    ensures |r.0| == |encoded.0| && |r.1| == |encoded.1|
    ensures forall l :: 0 <= l < |encoded.0| ==> r.0[l] == ItemSlice(encoded.0[l], index)
    ensures forall l :: 0 <= l < |encoded.1| ==> r.1[l] == ItemSlice(encoded.1[l], index)
  {
    (seq(|encoded.0|, l requires 0 <= l < |encoded.0| => ItemSlice(encoded.0[l], index)),
     seq(|encoded.1|, l requires 0 <= l < |encoded.1| => ItemSlice(encoded.1[l], index)))
  }
}
