/**
 * `compressGenericData` of supabase/functions/compress-file/index.ts: a
 * run-length encoder over bytes. A run of at least four equal bytes (at most
 * 255 at a time) becomes the group `0xFF, count, byte`; any other byte is
 * copied. If the encoding is not below 95% of the input, the input is
 * returned instead.
 */
module GenericCompression {
  import opened JsText

  /** The byte that opens a run group. */
  const Marker: byte := 0xFF
  /** The shortest run that is encoded as a group. */
  const MinRun: nat := 4
  /** The longest run one group holds. */
  const MaxRun: nat := 255

  /** What one step of the encoder emits. */
  datatype RleToken = Literal(b: byte) | Run(count: byte, b: byte)

  /** The inner counting loop, continued from `count` equal bytes at `i`. */
  function CountFrom(data: seq<byte>, i: nat, count: nat): (n: nat)
    requires i < |data| && 1 <= count <= MaxRun && i + count <= |data|
    ensures count <= n <= MaxRun && i + n <= |data|
    decreases MaxRun - count
  {
    if i + count < |data| && data[i + count] == data[i] && count < MaxRun then CountFrom(data, i, count + 1)
    else count
  }

  /** The length of the run of `data[i]` starting at `i`, capped at 255. */
  function RunLength(data: seq<byte>, i: nat): (n: nat)
    requires i < |data|
    ensures 1 <= n <= MaxRun && i + n <= |data|
  {
    CountFrom(data, i, 1)
  }

  /** The number of input bytes a token stands for. */
  function Width(t: RleToken): nat {
    if t.Run? then t.count as nat else 1
  }

  /** One iteration of the outer loop: a group for a run of four or more, else one literal. */
  function Step(data: seq<byte>, i: nat): (t: RleToken)
    requires i < |data|
    ensures t.b == data[i] && 1 <= Width(t) && i + Width(t) <= |data|
    ensures t.Run? ==> MinRun <= t.count as nat <= MaxRun
  {
    var n := RunLength(data, i);
    if n >= MinRun then Run(n as byte, data[i]) else Literal(data[i])
  }

  /** The tokens the encoder emits from position `i` on. */
  function Encode(data: seq<byte>, i: nat): seq<RleToken>
    requires i <= |data|
    decreases |data| - i
  {
    if i == |data| then []
    else
      var t := Step(data, i);
      [t] + Encode(data, i + Width(t))
  }

  function Repeat(b: byte, n: nat): (r: seq<byte>)
    ensures |r| == n && forall k :: 0 <= k < n ==> r[k] == b
  {
    if n == 0 then [] else [b] + Repeat(b, n - 1)
  }

  /** The bytes a token sequence stands for. */
  function Expand(ts: seq<RleToken>): seq<byte> {
    if ts == [] then []
    else
      match ts[0]
      case Literal(b) => [b] + Expand(ts[1..])
      case Run(n, b) => Repeat(b, n as nat) + Expand(ts[1..])
  }

  /** The bytes pushed to `result` for a token sequence. */
  function Serialize(ts: seq<RleToken>): seq<byte> {
    if ts == [] then []
    else
      match ts[0]
      case Literal(b) => [b] + Serialize(ts[1..])
      case Run(n, b) => [Marker, n, b] + Serialize(ts[1..])
  }

  /** The result of `compressGenericData(data, quality)`, whatever the quality. */
  function GenericCompressed(data: seq<byte>): seq<byte> {
    var result := Serialize(Encode(data, 0));
    if 100 * |result| >= 95 * |data| then data else result
  }

  /**
   * `compressGenericData(data, quality)`. The quality is read into a
   * factor that is never used afterwards, so it does not reach the result.
   */
  method CompressGenericData(data: seq<byte>, quality: int) returns (r: seq<byte>)
    ensures r == GenericCompressed(data)
    ensures |r| <= |data|
    ensures r == data || 100 * |r| < 95 * |data|
  {
    ghost var all := Serialize(Encode(data, 0));
    var result: seq<byte> := [];
    var i := 0;
    while i < |data|
      invariant 0 <= i <= |data|
      invariant result + Serialize(Encode(data, i)) == all
    {
      var b := data[i];
      var count := CountRun(data, i);
      ghost var t := Step(data, i);
      ghost var next := i + Width(t);
      SerializeAdvance(data, i, result);
      var group: seq<byte>;
      if count >= MinRun {
        assert t == Run(count as byte, b) && Width(t) == count;
        group := [Marker, count as byte, b];
        i := i + count;
      } else {
        assert t == Literal(b) && Width(t) == 1;
        group := [b];
        i := i + 1;
      }
      assert i == next && Serialize([t]) == group;
      result := result + group;
    }
    assert Serialize(Encode(data, i)) == [];
    assert result == all;
    SerializeShorter(data, 0);
    if 100 * |result| >= 95 * |data| {
      r := data;
    } else {
      r := result;
    }
  }

  /** One outer iteration moves the bytes of one step from the pending encoding to `result`. */
  lemma SerializeAdvance(data: seq<byte>, i: nat, result: seq<byte>)
    requires i < |data|
    ensures Serialize([Step(data, i)]) ==
              if Step(data, i).Run? then [Marker, Step(data, i).count, data[i]] else [data[i]]
    ensures result + Serialize(Encode(data, i)) ==
              (result + Serialize([Step(data, i)])) + Serialize(Encode(data, i + Width(Step(data, i))))
  {
    SerializeStep(data, i);
  }

  /** The inner loop: how many bytes from `i` on equal `data[i]`, at most 255. */
  method CountRun(data: seq<byte>, i: nat) returns (count: nat)
    requires i < |data|
    ensures count == RunLength(data, i)
  {
    var b := data[i];
    count := 1;
    while i + count < |data| && data[i + count] == b && count < MaxRun
      invariant 1 <= count <= MaxRun && i + count <= |data|
      invariant CountFrom(data, i, count) == RunLength(data, i)
    {
      count := count + 1;
    }
  }

  // ---------------------------------------------------------------------
  // Decoding, for the round-trip statements
  // ---------------------------------------------------------------------

  /** Reads groups `0xFF, count, byte` and single bytes back into bytes. */
  function Decode(bytes: seq<byte>): seq<byte>
    decreases |bytes|
  {
    if bytes == [] then []
    else if bytes[0] == Marker && |bytes| >= 3 then Repeat(bytes[2], bytes[1] as nat) + Decode(bytes[3..])
    else [bytes[0]] + Decode(bytes[1..])
  }

  // ---------------------------------------------------------------------
  // Lemmas
  // ---------------------------------------------------------------------

  lemma SerializeStep(data: seq<byte>, i: nat)
    requires i < |data|
    ensures Serialize(Encode(data, i)) == Serialize([Step(data, i)]) + Serialize(Encode(data, i + Width(Step(data, i))))
    ensures Serialize([Step(data, i)]) ==
              if Step(data, i).Run? then [Marker, Step(data, i).count, data[i]] else [data[i]]
  {
    var t := Step(data, i);
    assert ([t] + Encode(data, i + Width(t)))[1..] == Encode(data, i + Width(t));
  }

  lemma {:induction false} CountFromSpec(data: seq<byte>, i: nat, count: nat)
    requires i < |data| && 1 <= count <= MaxRun && i + count <= |data|
    requires forall k :: i <= k < i + count ==> data[k] == data[i]
    ensures forall k :: i <= k < i + CountFrom(data, i, count) ==> data[k] == data[i]
    ensures CountFrom(data, i, count) < MaxRun ==>
              i + CountFrom(data, i, count) == |data| || data[i + CountFrom(data, i, count)] != data[i]
    decreases MaxRun - count
  {
    if i + count < |data| && data[i + count] == data[i] && count < MaxRun {
      CountFromSpec(data, i, count + 1);
    }
  }

  /**
   * `RunLength` is the longest run of `data[i]` from `i` on, up to 255: the
   * bytes it covers all equal `data[i]`, and unless it hit the cap or the end
   * the next byte differs.
   */
  lemma RunLengthSpec(data: seq<byte>, i: nat)
    requires i < |data|
    ensures forall k :: i <= k < i + RunLength(data, i) ==> data[k] == data[i]
    ensures RunLength(data, i) < MaxRun ==>
              i + RunLength(data, i) == |data| || data[i + RunLength(data, i)] != data[i]
  {
    CountFromSpec(data, i, 1);
  }

  /** A group stands for that many copies of its byte. */
  lemma StepRun(data: seq<byte>, i: nat)
    requires i < |data|
    ensures data[i..i + Width(Step(data, i))] == Repeat(data[i], Width(Step(data, i)))
  {
    RunLengthSpec(data, i);
  }

  /** Every group holds a run of 4 to 255 bytes. */
  lemma {:induction false} EncodeRuns(data: seq<byte>, i: nat)
    requires i <= |data|
    ensures forall t :: t in Encode(data, i) && t.Run? ==> MinRun <= t.count as nat <= MaxRun
    decreases |data| - i
  {
    if i < |data| {
      EncodeRuns(data, i + Width(Step(data, i)));
    }
  }

  /** Expanding the emitted tokens gives back the input. */
  lemma {:induction false} ExpandEncode(data: seq<byte>, i: nat)
    requires i <= |data|
    ensures Expand(Encode(data, i)) == data[i..]
    decreases |data| - i
  {
    if i < |data| {
      var t := Step(data, i);
      var j := i + Width(t);
      ExpandEncode(data, j);
      StepRun(data, i);
      assert Expand([t] + Encode(data, j)) == Repeat(data[i], Width(t)) + Expand(Encode(data, j));
      assert data[i..] == data[i..j] + data[j..];
    }
  }

  /** The encoding is never longer than the input it encodes. */
  lemma {:induction false} SerializeShorter(data: seq<byte>, i: nat)
    requires i <= |data|
    ensures |Serialize(Encode(data, i))| <= |data| - i
    decreases |data| - i
  {
    if i < |data| {
      var t := Step(data, i);
      SerializeShorter(data, i + Width(t));
      assert Serialize([t] + Encode(data, i + Width(t))) == Serialize([t]) + Serialize(Encode(data, i + Width(t)));
    }
  }

  /** Tokens with no literal marker byte decode back from their bytes. */
  lemma {:induction false} DecodeSerialize(ts: seq<RleToken>)
    requires forall t :: t in ts && t.Literal? ==> t.b != Marker
    ensures Decode(Serialize(ts)) == Expand(ts)
  {
    if ts != [] {
      assert forall t :: t in ts[1..] ==> t in ts;
      DecodeSerialize(ts[1..]);
      match ts[0]
      case Literal(b) =>
        assert Serialize(ts) == [b] + Serialize(ts[1..]);
      case Run(n, b) =>
        assert Serialize(ts) == [Marker, n, b] + Serialize(ts[1..]);
        assert (Serialize(ts))[3..] == Serialize(ts[1..]);
    }
  }

  lemma {:induction false} EncodeNoMarker(data: seq<byte>, i: nat)
    requires i <= |data| && Marker !in data
    ensures forall t :: t in Encode(data, i) ==> t.b != Marker
    decreases |data| - i
  {
    if i < |data| {
      var t := Step(data, i);
      EncodeNoMarker(data, i + Width(t));
      assert t.b in data;
    }
  }

  /** When the input holds no 0xFF byte, its encoding decodes back to it. */
  lemma NoMarkerRoundTrip(data: seq<byte>)
    requires Marker !in data
    ensures Decode(Serialize(Encode(data, 0))) == data
    ensures Decode(GenericCompressed(data)) == data
  {
    EncodeNoMarker(data, 0);
    DecodeSerialize(Encode(data, 0));
    ExpandEncode(data, 0);
    assert data[0..] == data;
    if GenericCompressed(data) == data {
      DecodeNoMarker(data);
    }
  }

  lemma {:induction false} DecodeNoMarker(bytes: seq<byte>)
    requires Marker !in bytes
    ensures Decode(bytes) == bytes
  {
    if bytes != [] {
      assert forall x :: x in bytes[1..] ==> x in bytes;
      DecodeNoMarker(bytes[1..]);
    }
  }

  /**
   * Literal 0xFF bytes are not escaped, so two different inputs can give
   * the same output: three literal bytes `FF 05 41` and a run of five 0x41.
   */
  lemma GenericNotInjective()
    ensures GenericCompressed([0xFF, 0x05, 0x41]) == GenericCompressed([0x41, 0x41, 0x41, 0x41, 0x41])
  {
    var x: seq<byte> := [0xFF, 0x05, 0x41];
    var y: seq<byte> := [0x41, 0x41, 0x41, 0x41, 0x41];
    assert RunLength(x, 0) == 1 && RunLength(x, 1) == 1 && RunLength(x, 2) == 1;
    assert Encode(x, 3) == [];
    assert Encode(x, 0) == [Literal(0xFF), Literal(0x05), Literal(0x41)];
    assert RunLength(y, 0) == 5;
    assert Encode(y, 5) == [];
    assert Encode(y, 0) == [Run(5, 0x41)];
    assert Serialize(Encode(y, 0)) == x;
  }
}
