/** The training data's payloads (dataset.py): each training example
    carries the bits of its encoded metadata, cut or zero-filled to the
    dataset's payload size. The images, the file listing and the random
    usernames are not part of this model. */
module Dataset {
  import opened BitCodec
  import App

  class ImageDataset {
    /** payload_size: the number of payload bits per example. */
    const payloadSize: nat

    constructor (payloadSize: nat)
      ensures this.payloadSize == payloadSize
    {
      this.payloadSize := payloadSize;
    }

    /** metadata_to_tensor, up to the tensor conversion: eight bits per
        byte, most significant first, cut to payloadSize bits and then
        followed by zeros one at a time until there are payloadSize. */
    method MetadataToTensor(encodedMeta: seq<Byte>) returns (bits: seq<Bit>)
      ensures bits == FitToPayload(BitString(encodedMeta), payloadSize)
    {
      bits := [];
      for k := 0 to |encodedMeta|
        invariant bits + BitString(encodedMeta[k..]) == BitString(encodedMeta)
      {
        var digits := Binary8(encodedMeta[k]);
        assert (bits + digits) + BitString(encodedMeta[k + 1..]) == BitString(encodedMeta) by {
          BitStringStep(encodedMeta, k);
          AppendRegroup(bits, digits, BitString(encodedMeta[k + 1..]), BitString(encodedMeta));
        }
        bits := bits + digits;
      }
      assert encodedMeta[|encodedMeta|..] == [];
      ghost var full := FitToPayload(bits, payloadSize);
      bits := bits[..Min(payloadSize, |bits|)];
      while |bits| < payloadSize
        invariant |bits| <= payloadSize
        invariant bits == full[..|bits|]
        decreases payloadSize - |bits|
      {
        bits := bits + [0];
      }
    }
  }

  /** The training and the serving side lay out bytes identically: given the
      same bytes and a dataset payload size of PAYLOAD_SIZE, both build the
      same 1024-bit payload. (The bytes they are given differ: training
      embeds base64 text, serving the raw UTF-8 record.) */
  method TrainingMatchesServing(b: seq<Byte>) returns (training: seq<Bit>, serving: seq<Bit>)
    ensures training == serving
  {
    var data := new ImageDataset(App.PayloadSize);
    training := data.MetadataToTensor(b);
    serving := App.BytesToPayloadTensor(b);
  }
}
