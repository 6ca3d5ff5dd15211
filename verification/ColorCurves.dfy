/**
 * Colour curves on the wire: OutputConfiguration::setColorCurves copies vectors of 16-bit values into
 * byte arrays, OutputDevice copies byte arrays back. Both are plain memory copies, so the order of the
 * two bytes of a value is that of the host; the model is given that order.
 */
module ColorCurves {

  type Byte = x: int | 0 <= x < 256
  type UInt16 = x: int | 0 <= x < 65536

  datatype Order = LittleEndian | BigEndian

  function Pair(order: Order, v: UInt16): (Byte, Byte) {
    if order.LittleEndian? then (v % 256, v / 256) else (v / 256, v % 256)
  }

  function Value(order: Order, a: Byte, b: Byte): UInt16 {
    if order.LittleEndian? then a + 256 * b else 256 * a + b
  }

  function Encode(order: Order, values: seq<UInt16>): seq<Byte> {
    if values == [] then []
    else
      var (a, b) := Pair(order, values[|values| - 1]);
      Encode(order, values[..|values| - 1]) + [a, b]
  }

  lemma {:induction false} EncodeLength(order: Order, values: seq<UInt16>)
    ensures |Encode(order, values)| == |values| + |values|
  {
    if values != [] {
      EncodeLength(order, values[..|values| - 1]);
    }
  }

  /** The i-th value takes the i-th pair of bytes, the low byte first or last as the host has it. */
  lemma {:induction false} EncodeAt(order: Order, values: seq<UInt16>, i: nat)
    requires i < |values|
    ensures |Encode(order, values)| == |values| + |values|
    ensures var first: int, second: int := Encode(order, values)[i + i], Encode(order, values)[i + i + 1];
      values[i] == if order.LittleEndian? then first + 256 * second else 256 * first + second
  {
    var before := values[..|values| - 1];
    EncodeLength(order, before);
    if i < |before| {
      EncodeAt(order, before, i);
    }
  }

  /** The values in a byte array of even length. */
  function Decode(order: Order, bytes: seq<Byte>): seq<UInt16>
    requires |bytes| % 2 == 0
  {
    if bytes == [] then []
    else Decode(order, bytes[..|bytes| - 2]) + [Value(order, bytes[|bytes| - 2], bytes[|bytes| - 1])]
  }

  lemma ValueOfPair(order: Order, v: UInt16)
    ensures Value(order, Pair(order, v).0, Pair(order, v).1) == v
  {
  }

  lemma PairOfValue(order: Order, a: Byte, b: Byte)
    ensures Pair(order, Value(order, a, b)) == (a, b)
  {
  }

  lemma {:induction false} EncodeAppend(order: Order, values: seq<UInt16>, v: UInt16)
    ensures Encode(order, values + [v]) == Encode(order, values) + [Pair(order, v).0, Pair(order, v).1]
  {
    assert (values + [v])[..|values|] == values;
  }

  lemma {:induction false} DecodeAppend(order: Order, bytes: seq<Byte>, a: Byte, b: Byte)
    requires |bytes| % 2 == 0
    ensures Decode(order, bytes + [a, b]) == Decode(order, bytes) + [Value(order, a, b)]
  {
    assert (bytes + [a, b])[..|bytes|] == bytes;
  }

  /** Encoded and decoded again, a curve of any length is itself. */
  lemma {:induction false} DecodeOfEncode(order: Order, values: seq<UInt16>)
    ensures |Encode(order, values)| % 2 == 0 && Decode(order, Encode(order, values)) == values
  {
    if values != [] {
      var before, v := values[..|values| - 1], values[|values| - 1];
      DecodeOfEncode(order, before);
      assert values == before + [v];
      var (a, b) := Pair(order, v);
      EncodeAppend(order, before, v);
      DecodeAppend(order, Encode(order, before), a, b);
      ValueOfPair(order, v);
    }
  }

  /** Decoded and encoded again, a byte array of even length is itself. */
  lemma {:induction false} EncodeOfDecode(order: Order, bytes: seq<Byte>)
    requires |bytes| % 2 == 0
    ensures Encode(order, Decode(order, bytes)) == bytes
  {
    if bytes != [] {
      var before := bytes[..|bytes| - 2];
      EncodeOfDecode(order, before);
      var a, b := bytes[|bytes| - 2], bytes[|bytes| - 1];
      assert bytes == before + [a, b];
      DecodeAppend(order, before, a, b);
      EncodeAppend(order, Decode(order, before), Value(order, a, b));
      PairOfValue(order, a, b);
    }
  }

  /** The bytes that make up whole values. */
  function Whole(bytes: seq<Byte>): (whole: seq<Byte>)
    ensures |whole| % 2 == 0
  {
    bytes[..|bytes| - |bytes| % 2]
  }

  /** The curve a receiver makes of a byte array of any length. */
  function Curve(order: Order, bytes: seq<Byte>): seq<UInt16> {
    Decode(order, Whole(bytes))
  }

  lemma {:induction false} CurveOfEncode(order: Order, values: seq<UInt16>)
    ensures Curve(order, Encode(order, values)) == values
  {
    DecodeOfEncode(order, values);
    assert Whole(Encode(order, values)) == Encode(order, values);
  }

  /** Of every byte array the whole values survive, so it is itself again exactly if its length is even. */
  lemma {:induction false} EncodeOfCurve(order: Order, bytes: seq<Byte>)
    ensures Encode(order, Curve(order, bytes)) == bytes[..|bytes| - |bytes| % 2]
    ensures Encode(order, Curve(order, bytes)) == bytes <==> |bytes| % 2 == 0
  {
    EncodeOfDecode(order, Whole(bytes));
  }

  /** A copy of the whole array fits into the vector for its whole values exactly if its length is even;
      otherwise one byte goes past the end. */
  lemma CopyFitsExactly(order: Order, bytes: seq<Byte>)
    ensures |bytes| <= 2 * |Curve(order, bytes)| <==> |bytes| % 2 == 0
    ensures |bytes| == 2 * |Curve(order, bytes)| + |bytes| % 2
  {
    DecodeLength(order, Whole(bytes));
  }

  lemma {:induction false} DecodeLength(order: Order, bytes: seq<Byte>)
    requires |bytes| % 2 == 0
    ensures 2 * |Decode(order, bytes)| == |bytes|
  {
    if bytes != [] {
      DecodeLength(order, bytes[..|bytes| - 2]);
    }
  }

  /** A single byte is copied into an empty vector. */
  lemma CopyCanOverrun(order: Order, b: Byte)
    ensures Curve(order, [b]) == [] && |[b]| > 2 * |Curve(order, [b])|
  {
    CopyFitsExactly(order, [b]);
  }

  // ---------- The code ----------

  /** fillArray: a new byte array with the memory of the vector. */
  method FillArray(order: Order, origin: array<UInt16>) returns (dest: array<Byte>)
    ensures fresh(dest) && dest[..] == Encode(order, origin[..])
    ensures dest.Length % 2 == 0 && Curve(order, dest[..]) == origin[..]
  {
    dest := new Byte[2 * origin.Length](_ => 0);
    for i := 0 to origin.Length
      invariant dest[..2 * i] == Encode(order, origin[..i])
    {
      var (a, b) := Pair(order, origin[i]);
      ghost var done := dest[..2 * i];
      dest[2 * i], dest[2 * i + 1] := a, b;
      assert dest[..2 * i] == done;
      assert origin[..i + 1][..i] == origin[..i];
      assert dest[..2 * (i + 1)] == dest[..2 * i] + [a, b];
    }
    assert dest[..2 * origin.Length] == dest[..] && origin[..origin.Length] == origin[..];
    CurveOfEncode(order, origin[..]);
  }

  datatype Curves = Curves(red: seq<UInt16>, green: seq<UInt16>, blue: seq<UInt16>)

  class OutputDevice {
    const order: Order
    var colorCurves: Curves
    var done: bool
    ghost var colorCurvesChanged: nat   // emissions so far
    ghost var changed: nat
    ghost var overrun: nat              // bytes copied past the end of a vector so far

    constructor (order: Order)
      ensures this.order == order && colorCurves == Curves([], [], []) && !done
      ensures colorCurvesChanged == 0 && changed == 0 && overrun == 0
    {
      this.order, colorCurves, done := order, Curves([], [], []), false;
      colorCurvesChanged, changed, overrun := 0, 0, 0;
    }

    /** The destination has room for the whole values, and every byte is copied. */
    method SetCurve(curve: array<Byte>) returns (destination: seq<UInt16>)
      modifies this`overrun
      ensures destination == Curve(order, curve[..])
      ensures overrun - old(overrun) == curve.Length - 2 * |destination|
    {
      destination := [];
      for i := 0 to curve.Length / 2
        invariant destination == Decode(order, curve[..2 * i])
      {
        destination := destination + [Value(order, curve[2 * i], curve[2 * i + 1])];
        assert curve[..2 * (i + 1)][..2 * i] == curve[..2 * i];
      }
      assert curve[..2 * (curve.Length / 2)] == Whole(curve[..]);
      CopyFitsExactly(order, curve[..]);
      overrun := overrun + (curve.Length - 2 * |destination|);
    }

    /** colorCurvesChanged is emitted exactly when one of the decoded curves differs from the stored one. No
        byte is copied past the end of a vector exactly if all three lengths are even. */
    method ColorcurvesCallback(red: array<Byte>, green: array<Byte>, blue: array<Byte>)
      modifies this`colorCurves, this`colorCurvesChanged, this`changed, this`overrun
      ensures overrun == old(overrun) + red.Length % 2 + green.Length % 2 + blue.Length % 2
      ensures colorCurves == Curves(Curve(order, red[..]), Curve(order, green[..]), Curve(order, blue[..]))
      ensures colorCurvesChanged == old(colorCurvesChanged) + (if colorCurves != old(colorCurves) then 1 else 0)
      ensures changed == old(changed) + (if done && colorCurves != old(colorCurves) then 1 else 0)
    {
      CopyFitsExactly(order, red[..]);
      CopyFitsExactly(order, green[..]);
      CopyFitsExactly(order, blue[..]);
      var r := SetCurve(red);
      var g := SetCurve(green);
      var b := SetCurve(blue);
      var curves := Curves(r, g, b);
      if colorCurves != curves {
        colorCurves := curves;
        colorCurvesChanged := colorCurvesChanged + 1;
        if done {
          changed := changed + 1;
        }
      }
    }
  }

  /** The curves one side sends are the curves the other side stores, and no copy goes past the end. */
  method Send(device: OutputDevice, red: array<UInt16>, green: array<UInt16>, blue: array<UInt16>)
    modifies device
    ensures device.colorCurves == Curves(red[..], green[..], blue[..])
    ensures device.overrun == old(device.overrun)
    ensures device.colorCurvesChanged
      == old(device.colorCurvesChanged) + (if device.colorCurves != old(device.colorCurves) then 1 else 0)
  {
    var r := FillArray(device.order, red);
    var g := FillArray(device.order, green);
    var b := FillArray(device.order, blue);
    device.ColorcurvesCallback(r, g, b);
  }

  /** Sending them again is not announced. */
  method SendTwice(device: OutputDevice, red: array<UInt16>, green: array<UInt16>, blue: array<UInt16>)
    modifies device
    ensures device.colorCurves == Curves(red[..], green[..], blue[..])
    ensures device.colorCurvesChanged
      == old(device.colorCurvesChanged) + (if device.colorCurves != old(device.colorCurves) then 1 else 0)
  {
    Send(device, red, green, blue);
    Send(device, red, green, blue);
  }
}
