/** The 4096-byte header at the front of every ballast file (src/ballast/manager.rs).
    JSON text is written and read by a library; `Codec` stands for that library. */
module Header {
  import opened Basics

  const HEADER_SIZE: nat := 4096
  const MAGIC: string := "SBH_BALLAST_v1"
  const PURPOSE: string := "Storage ballast for emergency space recovery"

  datatype BallastHeader = BallastHeader(
    magic: string, fileIndex: u32, createdAt: string, fileSize: u64, purpose: string)

  /** The JSON library: any pair of a writer and a partial reader. */
  datatype Codec = Codec(write: BallastHeader -> seq<byte>, read: seq<byte> -> Option<BallastHeader>)

  /** What is asked of the library: reading undoes writing, and JSON text never holds a NUL byte
      (control characters are escaped, section 7 of RFC 8259). */
  ghost predicate Lawful(codec: Codec) {
    forall h :: codec.read(codec.write(h)) == Some(h) && 0 !in codec.write(h)
  }

  function NewHeader(index: u32, size: u64, createdAt: string): BallastHeader {
    BallastHeader(MAGIC, index, createdAt, size, PURPOSE)
  }

  /** The header block: JSON text, NUL-padded to HEADER_SIZE; None when the text does not fit. */
  function HeaderBuffer(codec: Codec, index: u32, size: u64, createdAt: string): Option<seq<byte>> {
    var json := codec.write(NewHeader(index, size, createdAt));
    if |json| > HEADER_SIZE then None
    else Some(json + seq(HEADER_SIZE - |json|, _ => 0))
  }

  /** Position of the first NUL at or after `from`, or the length when there is none. */
  function FirstNul(bytes: seq<byte>, from: nat): (k: nat)
    requires from <= |bytes|
    ensures from <= k <= |bytes| && 0 !in bytes[from..k]
    ensures k < |bytes| ==> bytes[k] == 0
    decreases |bytes| - from
  {
    if from == |bytes| || bytes[from] == 0 then from
    else
      var k := FirstNul(bytes, from + 1);
      assert bytes[from..k] == [bytes[from]] + bytes[from + 1..k];
      k
  }

  /** The header checks of verification, on the bytes read from the start of the file. */
  predicate Accepts(codec: Codec, head: seq<byte>, index: nat, size: nat) {
    && |head| == HEADER_SIZE
    && var parsed := codec.read(head[..FirstNul(head, 0)]);
    && parsed.Some?
    && parsed.value.magic == MAGIC
    && parsed.value.fileIndex == index
    && parsed.value.fileSize == size
  }

  /** A freshly written header is accepted for exactly its own index and size, including when the
      JSON text leaves no room for padding. */
  lemma HeaderRoundTrip(codec: Codec, index: u32, size: u64, createdAt: string, askedIndex: nat, askedSize: nat)
    requires Lawful(codec)
    requires HeaderBuffer(codec, index, size, createdAt).Some?
    ensures var head := HeaderBuffer(codec, index, size, createdAt).value;
            Accepts(codec, head, askedIndex, askedSize) <==> askedIndex == index && askedSize == size
  {
    var json := codec.write(NewHeader(index, size, createdAt));
    var head := HeaderBuffer(codec, index, size, createdAt).value;
    var k := FirstNul(head, 0);
    assert head[..|json|] == json;
    assert forall i :: 0 <= i < |json| ==> head[i] in json;
    assert forall i :: 0 <= i < k ==> head[i] in head[0..k];
    assert |json| < HEADER_SIZE ==> head[|json|] == 0;
    assert k == |json|;
  }
}
