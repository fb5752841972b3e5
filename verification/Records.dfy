/** Scanning a byte string as self-delimiting items: a checking pass, then an
    unchecked pass that replays it. The scan is the meaning of both. */
module Records {
  import opened Basics

  /** What a decoder returns: the number of bytes it used, zero or negative when
      it could not decode, and the item. */
  datatype Decoded<+T> = Decoded(length: int, item: T)

  datatype Piece<+T> = Piece(offset: nat, length: nat, item: T)

  predicate Fits<T>(d: Decoded<T>, available: nat) {
    0 < d.length <= available
  }

  /** All the items from an offset to the end, with their boundaries; None when
      some boundary does not decode. */
  function Scan<T>(decode: seq<byte> -> Decoded<T>, data: seq<byte>, offset: nat): Option<seq<Piece<T>>>
    requires offset <= |data|
    decreases |data| - offset
  {
    if offset == |data| then Some([])
    else
      var d := decode(data[offset..]);
      if !Fits(d, |data| - offset) then None
      else
        match Scan(decode, data, offset + d.length)
        case Some(rest) => Some([Piece(offset, d.length, d.item)] + rest)
        case None => None
  }

  /** The checking pass. */
  method Check<T>(decode: seq<byte> -> Decoded<T>, data: seq<byte>) returns (ok: bool)
    ensures ok <==> Scan(decode, data, 0).Some?
  {
    var offset := 0;
    while offset < |data|
      invariant 0 <= offset <= |data|
      invariant Scan(decode, data, 0).Some? <==> Scan(decode, data, offset).Some?
    {
      var decoded := decode(data[offset..]);
      if decoded.length <= 0 || decoded.length > |data| - offset {
        return false;
      }
      offset := offset + decoded.length;
    }
    return true;
  }

  /** The pass that prints without checking lengths. After a successful check it
      stays inside the data, always advances, and visits the same boundaries. */
  method Replay<T>(decode: seq<byte> -> Decoded<T>, data: seq<byte>) returns (pieces: seq<Piece<T>>)
    requires Scan(decode, data, 0).Some?
    ensures Scan(decode, data, 0) == Some(pieces)
  {
    pieces := [];
    var offset := 0;
    while offset < |data|
      invariant 0 <= offset <= |data|
      invariant Scan(decode, data, offset).Some?
      invariant pieces + Scan(decode, data, offset).value == Scan(decode, data, 0).value
    {
      var decoded := decode(data[offset..]);
      pieces := pieces + [Piece(offset, decoded.length, decoded.item)];
      offset := offset + decoded.length;
    }
    assert pieces + [] == pieces;
  }

  /** The pieces of a scan tile the data from where it starts to its end. */
  predicate Consecutive<T>(pieces: seq<Piece<T>>, from: nat, end: nat)
    decreases |pieces|
  {
    if pieces == [] then from == end
    else
      && pieces[0].offset == from && pieces[0].length > 0
      && Consecutive(pieces[1..], from + pieces[0].length, end)
  }

  /** Each piece is what the decoder makes of the data at its boundary. */
  predicate AreDecoded<T(==)>(decode: seq<byte> -> Decoded<T>, data: seq<byte>, pieces: seq<Piece<T>>) {
    forall i :: 0 <= i < |pieces| ==>
      pieces[i].offset <= |data| && decode(data[pieces[i].offset..]) == Decoded(pieces[i].length, pieces[i].item)
  }

  lemma {:induction false} ScanTiles<T>(decode: seq<byte> -> Decoded<T>, data: seq<byte>, offset: nat)
    requires offset <= |data| && Scan(decode, data, offset).Some?
    ensures Consecutive(Scan(decode, data, offset).value, offset, |data|)
    ensures AreDecoded(decode, data, Scan(decode, data, offset).value)
    decreases |data| - offset
  {
    if offset < |data| {
      var d := decode(data[offset..]);
      ScanTiles(decode, data, offset + d.length);
      var pieces := Scan(decode, data, offset).value;
      assert pieces[1..] == Scan(decode, data, offset + d.length).value;
      forall i | 0 <= i < |pieces|
        ensures pieces[i].offset <= |data| && decode(data[pieces[i].offset..]) == Decoded(pieces[i].length, pieces[i].item)
      {
        if i > 0 { assert pieces[i] == pieces[1..][i - 1]; }
      }
    }
  }

  /** And whatever pieces tile the data and are decoded there are those of the scan:
      it leaves none out. */
  lemma {:induction false} ScanFindsAll<T>(
      decode: seq<byte> -> Decoded<T>, data: seq<byte>, offset: nat, pieces: seq<Piece<T>>)
    requires offset <= |data| && Consecutive(pieces, offset, |data|) && AreDecoded(decode, data, pieces)
    ensures Scan(decode, data, offset) == Some(pieces)
    decreases |pieces|
  {
    if pieces != [] {
      EndIsBehind(pieces[1..], offset + pieces[0].length, |data|);
      assert forall i :: 0 <= i < |pieces| - 1 ==> pieces[1..][i] == pieces[i + 1];
      ScanFindsAll(decode, data, offset + pieces[0].length, pieces[1..]);
      assert decode(data[offset..]) == Decoded(pieces[0].length, pieces[0].item);
      assert [Piece(offset, pieces[0].length, pieces[0].item)] + pieces[1..] == pieces;
    }
  }

  lemma {:induction false} EndIsBehind<T>(pieces: seq<Piece<T>>, from: nat, end: nat)
    requires Consecutive(pieces, from, end)
    ensures from <= end
    decreases |pieces|
  {
    if pieces != [] { EndIsBehind(pieces[1..], from + pieces[0].length, end); }
  }

  /** A decoder that looks only at the bytes it uses. */
  ghost predicate SelfDelimiting<T>(decode: seq<byte> -> Decoded<T>) {
    forall s: seq<byte>, t: seq<byte> ::
      Fits(decode(s), |s|) && s[..decode(s).length] <= t ==> decode(t) == decode(s)
  }

  lemma DecodesTheSame<T>(decode: seq<byte> -> Decoded<T>, s: seq<byte>, t: seq<byte>)
    requires SelfDelimiting(decode) && Fits(decode(s), |s|) && s[..decode(s).length] <= t
    ensures decode(t) == decode(s)
  {
  }

  /** What a window of at most `limit` bytes makes of the data in front of it: the
      same item when that is no longer than the window, otherwise nothing. */
  lemma WindowDecodes<T>(decode: seq<byte> -> Decoded<T>, s: seq<byte>, limit: nat)
    requires SelfDelimiting(decode)
    ensures var window := s[..Min(|s|, limit)];
      && (Fits(decode(window), |window|) <==> Fits(decode(s), |s|) && decode(s).length <= limit)
      && (Fits(decode(window), |window|) ==> decode(window) == decode(s))
  {
  }
}
