/** Shaded vertices and the varying buffer through which a pixel shader reads
    the attributes of the triangle it is shading. */
module Varyings {
  import opened MachineInt
  import opened Simd

  /** `ShadedVertexPacket::MaxAttribs`. */
  const MaxAttribs: nat := 12

  /** Vectors in one packet: the four position components, then the attributes. */
  const PacketSlots: nat := 16

  /** Floats in one packet, `sizeof(ShadedVertexPacket) / 4`. */
  const PacketFloats: nat := 256

  /** Vertices of a triangle. */
  const TriangleVertices: nat := 3

  /** Attribute ids of the position components: `&Position.x == &Attribs[-4]`. */
  const AttribX: int := -4
  const AttribY: int := -3
  const AttribZ: int := -2
  const AttribW: int := -1

  // ---------------------------------------------------------------------------
  // ShadedVertexPacket
  // ---------------------------------------------------------------------------

  /** `values` written over `s` from index `at` on. */
  function Splice<T>(s: seq<T>, at: nat, values: seq<T>): seq<T>
    requires at + |values| <= |s|
  {
    s[..at] + values + s[at + |values|..]
  }

  /** A splice keeps the length, puts `values` at `at ..` and leaves every other
      element in place. */
  lemma SpliceAt<T>(s: seq<T>, at: nat, values: seq<T>)
    requires at + |values| <= |s|
    ensures |Splice(s, at, values)| == |s|
    ensures forall j :: 0 <= j < |values| ==> Splice(s, at, values)[at + j] == values[j]
    ensures forall j :: 0 <= j < |s| && !(at <= j < at + |values|) ==> Splice(s, at, values)[j] == s[j]
  {
  }

  /** The vertex shader's output for sixteen vertices: a position vector per
      component and `MaxAttribs` attribute vectors. */
  class ShadedVertexPacket {
    var Position: seq<seq<real>>
    const Attribs: array<seq<real>>

    ghost predicate Valid()
      reads this, Attribs
    {
      |Position| == 4 && (forall c :: 0 <= c < 4 ==> IsVFloat(Position[c]))
      && Attribs.Length == MaxAttribs
      && forall a :: 0 <= a < MaxAttribs ==> IsVFloat(Attribs[a])
    }

    /** The packet's sixteen vectors in memory order: position, then attributes. */
    function Slots(): (s: seq<seq<real>>)
      reads this, Attribs
      requires Valid()
      ensures |s| == PacketSlots && forall j :: 0 <= j < PacketSlots ==> IsVFloat(s[j])
      ensures forall c :: 0 <= c < 4 ==> s[c] == Position[c]
      ensures forall a :: 0 <= a < MaxAttribs ==> s[4 + a] == Attribs[a]
    {
      Position + Attribs[..]
    }

    constructor (position: seq<seq<real>>, attribs: seq<seq<real>>)
      requires |position| == 4 && (forall c :: 0 <= c < 4 ==> IsVFloat(position[c]))
      requires |attribs| == MaxAttribs && (forall a :: 0 <= a < MaxAttribs ==> IsVFloat(attribs[a]))
      ensures Valid() && fresh(Attribs)
      ensures Position == position && Attribs[..] == attribs
    {
      Position := position;
      Attribs := new seq<real>[MaxAttribs](j requires 0 <= j < MaxAttribs => attribs[j]);
    }

    /** `SetAttribs`: writes the consecutive vectors of `values` over the
        attributes `attrId ..`. */
    method SetAttribs(attrId: nat, values: seq<seq<real>>)
      requires Valid()
      requires attrId + |values| <= MaxAttribs
      requires forall j :: 0 <= j < |values| ==> IsVFloat(values[j])
      modifies Attribs
      ensures Valid() && Position == old(Position)
      ensures Attribs[..] == Splice(old(Attribs[..]), attrId, values)
    {
      forall j | attrId <= j < attrId + |values| {
        Attribs[j] := values[j - attrId];
      }
      assert Attribs[..] == Splice(old(Attribs[..]), attrId, values);
    }
  }

  // ---------------------------------------------------------------------------
  // VaryingBuffer
  // ---------------------------------------------------------------------------

  /** Float `lane` of vector `slot` of vertex `vertex`, counted from the first
      float of the triangle's three packets. */
  function FlatIndex(vertex: int, slot: int, lane: int): int {
    vertex * PacketFloats + slot * W + lane
  }

  /** The three packets of a triangle as they lie in memory, one float after another. */
  function PacketMemory(packets: seq<seq<seq<real>>>): (mem: seq<real>)
    requires |packets| == TriangleVertices
    requires forall v :: 0 <= v < TriangleVertices ==> |packets[v]| == PacketSlots
    requires forall v, j :: 0 <= v < TriangleVertices && 0 <= j < PacketSlots ==> IsVFloat(packets[v][j])
    ensures |mem| == TriangleVertices * PacketFloats
  {
    seq(TriangleVertices * PacketFloats, o requires 0 <= o < TriangleVertices * PacketFloats =>
      var v, j := o / PacketFloats, (o % PacketFloats) / W;
      assert IsVFloat(packets[v][j]);
      packets[v][j][o % W])
  }

  /** The memory layout is a bijection between (vertex, vector, lane) and the
      `3 * 256` floats of the triangle. */
  lemma FlatIndexBijective(vertex: int, slot: int, lane: int)
    requires 0 <= vertex < TriangleVertices && 0 <= slot < PacketSlots && 0 <= lane < W
    ensures 0 <= FlatIndex(vertex, slot, lane) < TriangleVertices * PacketFloats
    ensures FlatIndex(vertex, slot, lane) / PacketFloats == vertex
    ensures (FlatIndex(vertex, slot, lane) % PacketFloats) / W == slot
    ensures FlatIndex(vertex, slot, lane) % W == lane
  {
    var o := FlatIndex(vertex, slot, lane);
    DivModUnique(o, PacketFloats, vertex, slot * W + lane);
    DivModUnique(slot * W + lane, W, slot, lane);
    DivModUnique(o, W, vertex * PacketSlots + slot, lane);
  }

  lemma FlatIndexOnto(o: int)
    requires 0 <= o < TriangleVertices * PacketFloats
    ensures 0 <= o / PacketFloats < TriangleVertices
    ensures 0 <= (o % PacketFloats) / W < PacketSlots
    ensures FlatIndex(o / PacketFloats, (o % PacketFloats) / W, o % W) == o
  {
    var r := o % PacketFloats;
    DivModUnique(r, W, r / W, r % W);
    DivModUnique(o, W, (o / PacketFloats) * PacketSlots + r / W, r % W);
  }

  /** A `VaryingBuffer` without its interpolation weights: the attribute
      memory `Attribs` points into (the triangle's three packets) and the
      pointer's float offset into it, which selects the triangle's lane; the
      tile being shaded, its lane mask and the depth of its fragments. */
  datatype VaryingBuffer = VaryingBuffer(Memory: seq<real>, Base: int, TileOffset: int, TileMask: seq<bool>, Depth: seq<real>)
  {
    /** `Attribs = (float*)&tri.Vertices->Attribs + lane`: past the four position
        vectors of the first vertex, at one lane of the triangle. */
    predicate Valid() {
      |Memory| == TriangleVertices * PacketFloats && 4 * W <= Base < 5 * W
    }

    /** `GetFlat`: the value of attribute `attrId` of vertex `vertexId` for this
        buffer's triangle, in every lane. */
    function GetFlat(attrId: int, vertexId: int): (v: seq<real>)
      requires Valid()
      requires -4 <= attrId < MaxAttribs as int && 0 <= vertexId < TriangleVertices
      ensures IsVFloat(v)
      ensures forall k :: 0 <= k < W ==>
                v[k] == Memory[FlatIndex(vertexId, attrId + 4, Base - 4 * W)]
    {
      var idx := attrId * W + vertexId * PacketFloats;
      assert Base + idx == FlatIndex(vertexId, attrId + 4, Base - 4 * W);
      seq(W, _ => Memory[Base + idx])
    }
  }

  /** The varying buffer of lane `lane` of a triangle whose vertices are `packets`. */
  function VaryingsOf(packets: seq<seq<seq<real>>>, lane: int, tileOffset: int, tileMask: seq<bool>, depth: seq<real>): (vb: VaryingBuffer)
    requires |packets| == TriangleVertices
    requires forall v :: 0 <= v < TriangleVertices ==> |packets[v]| == PacketSlots
    requires forall v, j :: 0 <= v < TriangleVertices && 0 <= j < PacketSlots ==> IsVFloat(packets[v][j])
    requires 0 <= lane < W
    ensures vb.Valid()
  {
    VaryingBuffer(PacketMemory(packets), 4 * W + lane, tileOffset, tileMask, depth)
  }

  /** `GetFlat(attrId, v)` reads vector `attrId + 4` of vertex `v` at the buffer's
      lane: attributes `0 .. 11` are the packet's `Attribs`, and `-4 .. -1` its
      position components, which lie just before them. */
  lemma GetFlatReadsVertex(packets: seq<seq<seq<real>>>, lane: int, attrId: int, vertexId: int,
                           tileOffset: int, tileMask: seq<bool>, depth: seq<real>)
    requires |packets| == TriangleVertices
    requires forall v :: 0 <= v < TriangleVertices ==> |packets[v]| == PacketSlots
    requires forall v, j :: 0 <= v < TriangleVertices && 0 <= j < PacketSlots ==> IsVFloat(packets[v][j])
    requires 0 <= lane < W
    requires -4 <= attrId < MaxAttribs as int && 0 <= vertexId < TriangleVertices
    ensures forall k :: 0 <= k < W ==>
              VaryingsOf(packets, lane, tileOffset, tileMask, depth).GetFlat(attrId, vertexId)[k]
              == packets[vertexId][attrId + 4][lane]
  {
    FlatIndexBijective(vertexId, attrId + 4, lane);
  }

  /** For three packets laid out one after another, `GetFlat(attrId, v)` at
      lane `lane` is component `attrId + 4` of packet `v`'s position when
      `attrId < 0`, and its attribute `attrId` otherwise. */
  lemma GetFlatReadsPacket(p0: ShadedVertexPacket, p1: ShadedVertexPacket, p2: ShadedVertexPacket,
                           lane: int, attrId: int, vertexId: int,
                           tileOffset: int, tileMask: seq<bool>, depth: seq<real>)
    requires p0.Valid() && p1.Valid() && p2.Valid()
    requires 0 <= lane < W
    requires -4 <= attrId < MaxAttribs as int && 0 <= vertexId < TriangleVertices
    ensures var p := [p0, p1, p2][vertexId];
            var vb := VaryingsOf([p0.Slots(), p1.Slots(), p2.Slots()], lane, tileOffset, tileMask, depth);
            forall k :: 0 <= k < W ==>
              vb.GetFlat(attrId, vertexId)[k] ==
                (if attrId < 0 then p.Position[attrId + 4][lane] else p.Attribs[attrId][lane])
  {
    var packets := [p0.Slots(), p1.Slots(), p2.Slots()];
    GetFlatReadsVertex(packets, lane, attrId, vertexId, tileOffset, tileMask, depth);
  }
}
