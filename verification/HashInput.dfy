/** What both hashes need to know about input that arrives in pieces. */
module HashInput {
  import opened Bytes

  lemma Inside(full: seq<byte>, n: nat, bytes: seq<byte>, p: nat, k: nat)
    requires n <= |full| && full[n..] == bytes && p + k <= |bytes|
    ensures bytes[p..p + k] == full[n + p..n + p + k] && bytes[p..] == full[n + p..]
  {
    assert full[n..][p..p + k] == full[n + p..n + p + k];
    assert full[n..][p..] == full[n + p..];
  }

  lemma Stored(s: seq<byte>, piece: seq<byte>, mem: seq<byte>, k: nat)
    requires k <= |s| && k + |piece| <= |mem| && mem[..k] == s[|s| - k..]
    ensures Patch(mem, k, piece)[..k + |piece|] == (s + piece)[|s| - k..]
  {
    var r := Patch(mem, k, piece);
    assert r[..k + |piece|] == mem[..k] + piece;
  }

  ghost function Concat(pieces: seq<seq<byte>>): seq<byte> {
    if pieces == [] then [] else Concat(pieces[..|pieces| - 1]) + pieces[|pieces| - 1]
  }
}
