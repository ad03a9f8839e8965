/** The object decoders of the three codecs: the decoded blocks one after the other, cut
    off at the object length. */
module Objects {
  import opened Symbols
  import NullFec

  /** The first n bytes, filled up with zeros. */
  function Clip(s: Bytes, n: nat): (r: Bytes)
    ensures |r| == n
  {
    if |s| >= n then s[..n] else s + Zeros(n - |s|)
  }

  /** null_fec_decode_object, xor_fec_decode_object and rs_fec_decode_object share this loop. */
  method DecodeObject(blocks: seq<Bytes>, toLen: nat) returns (obj: array<byte>, dataLen: nat)
    ensures fresh(obj) && obj.Length == toLen + 1 && dataLen == toLen
    ensures obj[..dataLen] == Clip(Flatten(blocks), toLen) && obj[dataLen] == 0
  {
    obj := new byte[toLen + 1](_ => 0);
    var toDataLeft, position := toLen, 0;
    assert blocks[..0] == [];
    for i := 0 to |blocks|
      invariant position + toDataLeft == toLen
      invariant position == Min(toLen, |Flatten(blocks[..i])|)
      invariant obj[..] == Flatten(blocks[..i])[..position] + Zeros(toLen + 1 - position)
    {
      var len := Min(toDataLeft, |blocks[i]|);
      AppendBlock(blocks, i, position, len, toLen);
      NullFec.CopyBytes(obj, position, blocks[i], len);
      position := position + len;
      toDataLeft := toDataLeft - len;
    }
    assert blocks[..|blocks|] == blocks;
    dataLen := toLen;
  }

  lemma AppendBlock(blocks: seq<Bytes>, i: nat, position: nat, len: nat, toLen: nat)
    requires i < |blocks| && position == Min(toLen, |Flatten(blocks[..i])|) && len == Min(toLen - position, |blocks[i]|)
    ensures position + len == Min(toLen, |Flatten(blocks[..i + 1])|)
    ensures Flatten(blocks[..i + 1])[..position + len] == Flatten(blocks[..i])[..position] + blocks[i][..len]
  {
    assert blocks[..i + 1] == blocks[..i] + [blocks[i]];
    FlattenAppend(blocks[..i], [blocks[i]]);
    assert Flatten([blocks[i]]) == blocks[i];
    hide Flatten;
  }

  /** Padding behind the last block does not reach the object. */
  lemma ObjectRestored(data: Bytes, parts: seq<Bytes>, pad: nat)
    requires parts != [] && Flatten(parts) == data
    ensures var n := |parts| - 1;
            Clip(Flatten(parts[n := parts[n] + Zeros(pad)]), |data|) == data
  {
    var n := |parts| - 1;
    var last := parts[n];
    assert parts == parts[..n] + [last];
    assert parts[n := last + Zeros(pad)] == parts[..n] + [last + Zeros(pad)];
    FlattenAppend(parts[..n], [last]);
    FlattenAppend(parts[..n], [last + Zeros(pad)]);
    assert Flatten([last]) == last && Flatten([last + Zeros(pad)]) == last + Zeros(pad);
    hide Flatten;
    assert Flatten(parts[n := last + Zeros(pad)])[..|data|] == data;
  }
}
