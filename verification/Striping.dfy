/** How a byte range of a striped file is located on the storage servers. */
module Striping {
  import opened Arithmetic

  datatype Piece = Piece(server: nat, offset: nat, length: nat)

  // -------------------------------------------------------------------- arithmetic

  lemma Regroup(q: nat, n: nat, r: nat, s: nat)
    ensures (q * n + r) * s == q * (s * n) + r * s
  {}

  // ------------------------------------------------------------- where a byte goes

  /** Server and local offset of one byte of the file. */
  function Place(o: nat, stripe: nat, n: nat): (nat, nat)
    requires stripe > 0 && n > 0
  {
    (o / stripe % n, o / stripe / n * stripe + o % stripe)
  }

  /** The byte of the file at a local offset of a server. */
  function Global(server: nat, local: nat, stripe: nat, n: nat): nat
    requires stripe > 0
  {
    (local / stripe * n + server) * stripe + local % stripe
  }

  /** Stripes go round the servers: byte r of stripe s in round k is byte r of stripe k on server s. */
  lemma RoundRobin(k: nat, s: nat, r: nat, stripe: nat, n: nat)
    requires s < n && r < stripe
    ensures Place((k * n + s) * stripe + r, stripe, n) == (s, k * stripe + r)
  {
    var o, q := (k * n + s) * stripe + r, k * n + s;
    DivMod(o, stripe, q, r);
    DivMod(q, n, k, s);
    PlaceIs(o, stripe, n, q, r);
  }

  lemma PlaceIs(o: nat, stripe: nat, n: nat, q: nat, r: nat)
    requires stripe > 0 && n > 0 && o / stripe == q && o % stripe == r
    ensures Place(o, stripe, n) == (q % n, q / n * stripe + r)
  {}

  lemma PlaceParts(o: nat, stripe: nat, n: nat)
    requires stripe > 0 && n > 0
    ensures var (server, local) := Place(o, stripe, n);
            server < n && local / stripe == o / stripe / n && local % stripe == o % stripe
  {
    DivMod(Place(o, stripe, n).1, stripe, o / stripe / n, o % stripe);
  }

  lemma GlobalOfPlace(o: nat, stripe: nat, n: nat)
    requires stripe > 0 && n > 0
    ensures var (server, local) := Place(o, stripe, n); Global(server, local, stripe, n) == o
  {
    PlaceParts(o, stripe, n);
    DivModBack(o / stripe, n);
    DivModBack(o, stripe);
  }

  lemma PlaceOfGlobal(server: nat, local: nat, stripe: nat, n: nat)
    requires stripe > 0 && server < n
    ensures Place(Global(server, local, stripe, n), stripe, n) == (server, local)
  {
    var k := local / stripe * n + server;
    DivMod(Global(server, local, stripe, n), stripe, k, local % stripe);
    DivMod(k, n, local / stripe, server);
    DivModBack(local, stripe);
  }

  /** No two bytes share a place, and every place holds a byte. */
  lemma PlaceBijective(o: nat, server: nat, local: nat, stripe: nat, n: nat)
    requires stripe > 0 && server < n
    ensures Place(o, stripe, n) == (server, local) <==> Global(server, local, stripe, n) == o
  {
    GlobalOfPlace(o, stripe, n);
    PlaceOfGlobal(server, local, stripe, n);
  }

  /** On one server, the bytes keep their order. */
  lemma GlobalMonotone(server: nat, l1: nat, l2: nat, stripe: nat, n: nat)
    requires stripe > 0 && n > 0 && l1 < l2
    ensures Global(server, l1, stripe, n) < Global(server, l2, stripe, n)
  {
    var q1, q2 := l1 / stripe, l2 / stripe;
    DivModBack(l1, stripe);
    DivModBack(l2, stripe);
    if q2 < q1 { Scaled(q2, q1, stripe); }
    if q1 < q2 {
      Scaled(q1, q2, n);
      Scaled(q1 * n + server, q2 * n + server, stripe);
    }
  }

  /** What a range occupies on one server is one stretch of local offsets. */
  lemma OneExtent(server: nat, l1: nat, l2: nat, l3: nat, offset: nat, length: nat, stripe: nat, n: nat)
    requires stripe > 0 && n > 0 && l1 <= l2 <= l3
    requires offset <= Global(server, l1, stripe, n) && Global(server, l3, stripe, n) < offset + length
    ensures offset <= Global(server, l2, stripe, n) < offset + length
  {
    if l1 < l2 { GlobalMonotone(server, l1, l2, stripe, n); }
    if l2 < l3 { GlobalMonotone(server, l2, l3, stripe, n); }
  }

  // ------------------------------------------------------------------------ locate

  /** The places of the bytes of a range, in order. */
  function Places(offset: nat, length: nat, stripe: nat, n: nat): (r: seq<(nat, nat)>)
    requires stripe > 0 && n > 0
    ensures |r| == length && forall i :: 0 <= i < length ==> r[i] == Place(offset + i, stripe, n)
  {
    seq(length, i requires 0 <= i < length => Place(offset + i, stripe, n))
  }

  function PlacesOf(p: Piece): (r: seq<(nat, nat)>)
    ensures |r| == p.length && forall i :: 0 <= i < p.length ==> r[i] == (p.server, p.offset + i)
  {
    seq(p.length, i requires 0 <= i < p.length => (p.server, p.offset + i))
  }

  /** The places that the pieces name, in order. */
  function AllPlaces(ps: seq<Piece>): seq<(nat, nat)> {
    if ps == [] then [] else AllPlaces(ps[..|ps| - 1]) + PlacesOf(ps[|ps| - 1])
  }

  /** The piece lies in one stripe of its server. */
  predicate InOneStripe(p: Piece, stripe: nat)
    requires stripe > 0
  {
    p.length > 0 && p.offset % stripe + p.length <= stripe
  }

  lemma NestedDiv(o: nat, stripe: nat, n: nat)
    requires stripe > 0 && n > 0
    ensures stripe * n > 0 && o / (stripe * n) == o / stripe / n
  {
    var k := o / stripe;
    var q, r := k / n, k % n;
    DivModBack(o, stripe);
    DivModBack(k, n);
    Regroup(q, n, r, stripe);
    Scaled(r, n, stripe);
    Scaled(0, n, stripe);
    DivMod(o, stripe * n, q, r * stripe + o % stripe);
  }

  lemma PlaceNext(offset: nat, i: nat, stripe: nat, n: nat)
    requires stripe > 0 && n > 0 && offset % stripe + i < stripe
    ensures Place(offset + i, stripe, n) == (Place(offset, stripe, n).0, Place(offset, stripe, n).1 + i)
  {
    DivModBack(offset, stripe);
    DivMod(offset + i, stripe, offset / stripe, offset % stripe + i);
  }

  /** The bytes up to the end of the stripe follow each other on the server. */
  lemma PiecePlaces(p: Piece, offset: nat, stripe: nat, n: nat)
    requires stripe > 0 && n > 0 && (p.server, p.offset) == Place(offset, stripe, n)
    requires offset % stripe + p.length <= stripe
    ensures PlacesOf(p) == Places(offset, p.length, stripe, n)
  {
    var places := Places(offset, p.length, stripe, n);
    forall i | 0 <= i < p.length ensures places[i] == (p.server, p.offset + i) {
      PlaceNext(offset, i, stripe, n);
    }
  }

  lemma PlacesSplit(offset: nat, a: nat, b: nat, stripe: nat, n: nat)
    requires stripe > 0 && n > 0
    ensures Places(offset, a + b, stripe, n) == Places(offset, a, stripe, n) + Places(offset + a, b, stripe, n)
  {}

  /** The range that is located once padding has been applied. */
  function PaddedOffset(offset: nat, padding: nat): nat { if padding > 0 then offset - offset % padding else offset }

  function PaddedLength(offset: nat, length: nat, padding: nat): nat {
    if padding > 0 then
      var l := length + offset % padding;
      l + (padding - l % padding)
    else length
  }

  /** Padding yields an aligned range around the given one that overshoots its end by one to padding bytes. */
  lemma PaddingAligns(offset: nat, length: nat, padding: nat)
    requires padding > 0
    ensures var start, end := PaddedOffset(offset, padding),
                              PaddedOffset(offset, padding) + PaddedLength(offset, length, padding);
            && start <= offset < start + padding && start % padding == 0 && end % padding == 0
            && offset + length < end <= offset + length + padding
  {
    var q, l := offset / padding, length + offset % padding;
    DivModBack(offset, padding);
    DivMod(offset - offset % padding, padding, q, 0);
    DivModBack(l, padding);
    assert (q + l / padding + 1) * padding == q * padding + l / padding * padding + padding;
    DivMod(PaddedOffset(offset, padding) + PaddedLength(offset, length, padding), padding, q + l / padding + 1, 0);
  }

  /** locate: the pieces name the places of the range, each once and in order; none crosses a stripe, and all
      but the last end with one. */
  method Locate(offset0: nat, length0: nat, n: nat, stripe: nat, padding: nat) returns (pieces: seq<Piece>)
    requires stripe > 0 && n > 0
    ensures AllPlaces(pieces) ==
            Places(PaddedOffset(offset0, padding), PaddedLength(offset0, length0, padding), stripe, n)
    ensures padding == 0 ==> AllPlaces(pieces) == Places(offset0, length0, stripe, n)
    ensures forall i :: 0 <= i < |pieces| ==> InOneStripe(pieces[i], stripe) && pieces[i].server < n
    ensures forall i :: 0 <= i < |pieces| ==>
              0 < pieces[i].length && pieces[i].offset % stripe + pieces[i].length <= stripe
    ensures forall i :: 0 <= i < |pieces| - 1 ==> pieces[i].offset % stripe + pieces[i].length == stripe
  {
    var offset, length := offset0, length0;
    if padding > 0 {
      length := length + offset % padding;
      offset := offset - offset % padding;
      length := length + (padding - length % padding);
    }
    assert offset == PaddedOffset(offset0, padding) && length == PaddedLength(offset0, length0, padding);
    ghost var start, whole := offset, length;
    pieces := [];
    while length > 0
      invariant offset - start + length == whole && offset >= start && length >= 0
      invariant AllPlaces(pieces) == Places(start, offset - start, stripe, n)
      invariant forall i :: 0 <= i < |pieces| ==> InOneStripe(pieces[i], stripe) && pieces[i].server < n
      invariant forall i :: 0 <= i < |pieces| ==>
                  pieces[i].offset % stripe + pieces[i].length == stripe || (i == |pieces| - 1 && length == 0)
      decreases length
    {
      var p := NextPiece(offset, length, n, stripe);
      PlacesSplit(start, offset - start, p.length, stripe, n);
      pieces := pieces + [p];
      assert pieces[..|pieces| - 1] + [p] == pieces;
      length := length - p.length;
      offset := offset + p.length;
    }
  }

  /** The piece at the front of a range. */
  method NextPiece(offset: nat, length: nat, n: nat, stripe: nat) returns (p: Piece)
    requires stripe > 0 && n > 0 && length > 0
    ensures 0 < p.length <= length && p.server < n && InOneStripe(p, stripe)
    ensures PlacesOf(p) == Places(offset, p.length, stripe, n)
    ensures p.length == length || p.offset % stripe + p.length == stripe
  {
    NextIsPlace(offset, stripe, n);
    var server := offset / stripe % n;
    var lOff := offset / (stripe * n) * stripe + offset % stripe;
    var lLength := if stripe - offset % stripe < length then stripe - offset % stripe else length;
    p := Piece(server, lOff, lLength);
    PiecePlaces(p, offset, stripe, n);
  }

  /** Where a range starts. */
  lemma NextIsPlace(offset: nat, stripe: nat, n: nat)
    requires stripe > 0 && n > 0
    ensures var server, local := offset / stripe % n, offset / (stripe * n) * stripe + offset % stripe;
            && stripe * n > 0 && (server, local) == Place(offset, stripe, n)
            && server < n && local % stripe == offset % stripe < stripe
  {
    NestedDiv(offset, stripe, n);
    PlaceParts(offset, stripe, n);
  }

  function TotalLength(ps: seq<Piece>): nat {
    if ps == [] then 0 else TotalLength(ps[..|ps| - 1]) + ps[|ps| - 1].length
  }

  /** The lengths of the pieces add up. */
  lemma {:induction false} LengthsAddUp(ps: seq<Piece>)
    ensures |AllPlaces(ps)| == TotalLength(ps)
  {
    if ps != [] { LengthsAddUp(ps[..|ps| - 1]); }
  }
}
