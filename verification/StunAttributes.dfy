/** STUN attributes as padded type-length-value items, and the parse loop over them
    (src/stun/conv.cr, `StunAttributes`; section 15 of RFC 5389). */
module StunAttributes {
  import opened Wrappers
  import opened ByteStrings
  import opened RollOverCounter

  datatype Attribute = Attribute(typ: uint16, value: Bytes)

  /** `w & ~3`: the low two bits cleared. */
  function ClearLow(w: nat): nat {
    w - w % 4
  }

  /** `a + b` in 16 bits. */
  function Add16(a: uint16, b: uint16): uint16 {
    if a + b < 0x1_0000 then a + b else a + b - 0x1_0000
  }

  /** The next multiple of four. */
  function RoundUp(n: nat): (r: nat)
    ensures r % 4 == 0 && n <= r < n + 4
  {
    ClearLow(n + 3)
  }

  // ----- the list a byte string stands for

  /** The attributes from octet `step` on. */
  function ParseFrom(data: Bytes, step: nat): Result<seq<Attribute>>
    decreases |data| - step
  {
    if step >= |data| then Success([])
    else if |data| < step + 4 then IndexError
    else if |data| < step + 4 + LengthAt(data, step) then IndexError
    else Prepend(AttributeAt(data, step), ParseFrom(data, step + 4 + RoundUp(LengthAt(data, step))))
  }

  function LengthAt(data: Bytes, step: nat): uint16
    requires step + 4 <= |data|
  {
    U16(data[step + 2], data[step + 3])
  }

  function AttributeAt(data: Bytes, step: nat): Attribute
    requires step + 4 <= |data| && step + 4 + LengthAt(data, step) <= |data|
  {
    Attribute(U16(data[step], data[step + 1]), data[step + 4..step + 4 + LengthAt(data, step)])
  }

  function Prepend(a: Attribute, rest: Result<seq<Attribute>>): Result<seq<Attribute>> {
    match rest
    case IndexError => IndexError
    case Success(attrs) => Success([a] + attrs)
  }

  /** Filling the hash in order, so that later duplicates win. */
  function Fill(m: map<uint16, Bytes>, attrs: seq<Attribute>): map<uint16, Bytes>
    decreases |attrs|
  {
    if attrs == [] then m else Fill(m[attrs[0].typ := attrs[0].value], attrs[1..])
  }

  function FillWith(m: map<uint16, Bytes>, attrs: Result<seq<Attribute>>): Result<map<uint16, Bytes>> {
    match attrs
    case IndexError => IndexError
    case Success(list) => Success(Fill(m, list))
  }

  lemma FillPrepend(m: map<uint16, Bytes>, a: Attribute, rest: Result<seq<Attribute>>)
    ensures FillWith(m, Prepend(a, rest)) == FillWith(m[a.typ := a.value], rest)
  {
    if rest.Success? {
      assert ([a] + rest.value)[1..] == rest.value;
    }
  }

  /** One turn of the loop. */
  lemma TurnKeeps(m: map<uint16, Bytes>, data: Bytes, step: nat, a: Attribute)
    requires step + 4 <= |data| && step + 4 + LengthAt(data, step) <= |data| && a == AttributeAt(data, step)
    ensures FillWith(m, ParseFrom(data, step))
            == FillWith(m[a.typ := a.value], ParseFrom(data, step + 4 + RoundUp(|a.value|)))
  {
    FillPrepend(m, a, ParseFrom(data, step + 4 + RoundUp(|a.value|)));
  }

  /** The parse loop.  The data is at most what a 16-bit length can announce, so once the
      slice has succeeded `attr_len + 3` stays within 16 bits; every turn advances. */
  method Parse(data: Bytes) returns (r: Result<map<uint16, Bytes>>)
    requires |data| < 0x1_0000
    ensures r == FillWith(map[], ParseFrom(data, 0))
  {
    var attributes: map<uint16, Bytes> := map[];
    var step := 0;
    ghost var goal := FillWith(map[], ParseFrom(data, 0));
    while step < |data|
      invariant FillWith(attributes, ParseFrom(data, step)) == goal
      decreases |data| - step
    {
      if |data| < step + 4 {
        return IndexError;
      }
      var typ := U16(data[step], data[step + 1]);
      var len := U16(data[step + 2], data[step + 3]);
      if |data| < step + 4 + len {
        return IndexError;
      }
      var value := data[step + 4..step + 4 + len];
      TurnKeeps(attributes, data, step, Attribute(typ, value));
      attributes := attributes[typ := value];
      var skip := ClearLow(Add16(len, 3));
      assert skip == RoundUp(|value|) by { assert Add16(len, 3) == len + 3; }
      step := step + 4 + skip;
    }
    r := Success(attributes);
  }

  /** The hash holds, for every type, the value of its last attribute. */
  lemma {:induction false} LastWins(m: map<uint16, Bytes>, attrs: seq<Attribute>, j: nat)
    requires j < |attrs| && forall i :: j < i < |attrs| ==> attrs[i].typ != attrs[j].typ
    ensures attrs[j].typ in Fill(m, attrs) && Fill(m, attrs)[attrs[j].typ] == attrs[j].value
    decreases |attrs|
  {
    var m' := m[attrs[0].typ := attrs[0].value];
    if j > 0 {
      LastWins(m', attrs[1..], j - 1);
    } else {
      FillElsewhere(m', attrs[1..], attrs[0].typ);
    }
  }

  lemma {:induction false} FillElsewhere(m: map<uint16, Bytes>, attrs: seq<Attribute>, t: uint16)
    requires forall i :: 0 <= i < |attrs| ==> attrs[i].typ != t
    ensures t in Fill(m, attrs) <==> t in m
    ensures t in m ==> Fill(m, attrs)[t] == m[t]
    decreases |attrs|
  {
    if attrs != [] {
      FillElsewhere(m[attrs[0].typ := attrs[0].value], attrs[1..], t);
    }
  }

  // ----- printing

  /** An attribute with the octets that pad it to a multiple of four. */
  datatype Padded = Padded(attr: Attribute, pad: Bytes)

  ghost predicate WellPadded(x: Padded) {
    |x.attr.value| < 0x1_0000 && |x.attr.value| + |x.pad| == RoundUp(|x.attr.value|)
  }

  function EncodeOne(x: Padded): (b: Bytes)
    requires |x.attr.value| < 0x1_0000
    ensures |b| == 4 + |x.attr.value| + |x.pad|
  {
    Be16(x.attr.typ) + Be16(|x.attr.value|) + x.attr.value + x.pad
  }

  ghost predicate AllPadded(xs: seq<Padded>) {
    forall i :: 0 <= i < |xs| ==> WellPadded(xs[i])
  }

  function Encode(xs: seq<Padded>): Bytes
    requires forall i :: 0 <= i < |xs| ==> |xs[i].attr.value| < 0x1_0000
  {
    if xs == [] then [] else EncodeOne(xs[0]) + Encode(xs[1..])
  }

  function Attributes(xs: seq<Padded>): seq<Attribute> {
    if xs == [] then [] else [xs[0].attr] + Attributes(xs[1..])
  }

  function LastPad(xs: seq<Padded>): nat {
    if xs == [] then 0 else |xs[|xs| - 1].pad|
  }

  /** From octet `at` on the data is the printed list; the last padding may be cut short. */
  ghost predicate Prints(data: Bytes, at: nat, xs: seq<Padded>) {
    && AllPadded(xs) && at <= |data|
    && |Encode(xs)| - LastPad(xs) <= |data| - at && data[at..] <= Encode(xs)
  }

  lemma EncodeOneParts(x: Padded, rest: Bytes, data: Bytes, at: nat)
    requires WellPadded(x) && at + 4 + |x.attr.value| <= |data| && data[at..] <= EncodeOne(x) + rest
    ensures LengthAt(data, at) == |x.attr.value| && AttributeAt(data, at) == x.attr
  {
    var n, whole := |x.attr.value|, EncodeOne(x) + rest;
    Be16RoundTrip(x.attr.typ);
    Be16RoundTrip(n);
    assert whole[..2] == Be16(x.attr.typ) && whole[2..4] == Be16(n) && whole[4..4 + n] == x.attr.value;
    forall i | 0 <= i < 4 + n
      ensures data[at + i] == whole[i]
    {
      assert data[at..][i] == whole[i];
    }
    assert data[at + 0] == whole[..2][0] && data[at + 1] == whole[..2][1];
    assert data[at + 2] == whole[2..4][0] && data[at + 3] == whole[2..4][1];
    assert data[at + 4..at + 4 + n] == whole[4..4 + n];
  }

  /** The loop inverts the printer on every list, whatever the padding octets. */
  lemma {:induction false} ParseOfPrint(data: Bytes, at: nat, xs: seq<Padded>)
    requires Prints(data, at, xs)
    ensures ParseFrom(data, at) == Success(Attributes(xs))
    decreases |xs|
  {
    if xs == [] {
      assert |data| == at;
    } else {
      var x := xs[0];
      assert WellPadded(x);
      FirstFits(data, at, xs);
      EncodeOneParts(x, Encode(xs[1..]), data, at);
      var next := at + |EncodeOne(x)|;
      ParseTurn(data, at, x.attr, next);
      if next < |data| {
        TailPrints(data, at, xs);
        ParseOfPrint(data, next, xs[1..]);
      } else {
        NothingAfter(data, at, xs);
        assert Attributes(xs[1..]) == [];
      }
    }
  }

  lemma ParseTurn(data: Bytes, at: nat, a: Attribute, next: nat)
    requires at + 4 <= |data| && at + 4 + LengthAt(data, at) <= |data| && a == AttributeAt(data, at)
    requires next == at + 4 + RoundUp(|a.value|)
    ensures ParseFrom(data, at) == Prepend(a, ParseFrom(data, next))
  {
    assert |a.value| == LengthAt(data, at);
  }

  lemma {:induction false} LongEnough(xs: seq<Padded>)
    requires AllPadded(xs) && xs != []
    ensures |Encode(xs)| >= 4 + LastPad(xs)
  {
    if |xs| > 1 {
      assert xs[1..][|xs| - 2] == xs[|xs| - 1];
      LongEnough(xs[1..]);
    }
  }

  lemma FirstFits(data: Bytes, at: nat, xs: seq<Padded>)
    requires Prints(data, at, xs) && xs != []
    ensures at + 4 + |xs[0].attr.value| <= |data|
  {
    if |xs| > 1 {
      assert xs[1..][|xs| - 2] == xs[|xs| - 1];
      LongEnough(xs[1..]);
    }
  }

  lemma TailPrints(data: Bytes, at: nat, xs: seq<Padded>)
    requires Prints(data, at, xs) && xs != [] && |data| > at + |EncodeOne(xs[0])|
    ensures Prints(data, at + |EncodeOne(xs[0])|, xs[1..])
  {
    var k := |EncodeOne(xs[0])|;
    assert Encode(xs)[k..] == Encode(xs[1..]);
    assert data[at + k..] == data[at..][k..];
    if |xs| > 1 {
      assert xs[1..][|xs| - 2] == xs[|xs| - 1];
    }
  }

  lemma NothingAfter(data: Bytes, at: nat, xs: seq<Padded>)
    requires Prints(data, at, xs) && xs != [] && |data| <= at + |EncodeOne(xs[0])|
    ensures |xs| == 1
  {
    if |xs| > 1 {
      assert xs[1..][|xs| - 2] == xs[|xs| - 1];
      LongEnough(xs[1..]);
    }
  }

  /** Conversely, whatever the loop accepts is such a printed list. */
  lemma {:induction false} PrintOfParse(data: Bytes, at: nat) returns (xs: seq<Padded>)
    requires at <= |data| && ParseFrom(data, at).Success?
    ensures Prints(data, at, xs) && Attributes(xs) == ParseFrom(data, at).value
    decreases |data| - at
  {
    if at == |data| {
      xs := [];
    } else {
      var a := AttributeAt(data, at);
      var from, next := at + 4 + |a.value|, at + 4 + RoundUp(|a.value|);
      if next < |data| {
        var more := PrintOfParse(data, next);
        var x := Padded(a, data[from..next]);
        xs := [x] + more;
        HeadOctets(data, at, x, next);
        PrintsMore(data, at, x, next, more);
      } else {
        var fill := seq<byte>(next - |data|, _ => 0);
        var x := Padded(a, data[from..] + fill);
        xs := [x];
        HeadOctets(data + fill, at, x, next);
        PrintsLast(data, at, x, fill);
      }
    }
  }

  lemma HeadOctets(data: Bytes, at: nat, x: Padded, next: nat)
    requires at + 4 + |x.attr.value| <= next <= |data| && LengthAt(data, at) == |x.attr.value|
    requires AttributeAt(data, at) == x.attr && x.pad == data[at + 4 + |x.attr.value|..next]
    ensures EncodeOne(x) == data[at..next]
  {
    Be16Octets(data[at], data[at + 1]);
    Be16Octets(data[at + 2], data[at + 3]);
  }

  lemma PrintsMore(data: Bytes, at: nat, x: Padded, next: nat, more: seq<Padded>)
    requires at <= next < |data| && WellPadded(x) && EncodeOne(x) == data[at..next] && Prints(data, next, more)
    ensures Prints(data, at, [x] + more) && Attributes([x] + more) == [x.attr] + Attributes(more)
  {
    var xs := [x] + more;
    assert xs[1..] == more;
    assert data[at..] == EncodeOne(x) + data[next..];
    assert more != [];
    assert xs[|xs| - 1] == more[|more| - 1];
  }

  lemma PrintsLast(data: Bytes, at: nat, x: Padded, fill: Bytes)
    requires at + 4 + |x.attr.value| <= |data| && WellPadded(x) && EncodeOne(x) == (data + fill)[at..]
    ensures Prints(data, at, [x]) && Attributes([x]) == [x.attr]
  {
    assert EncodeOne(x) == data[at..] + fill;
    assert [x][1..] == [];
    assert Encode([x]) == EncodeOne(x) + Encode([]) == EncodeOne(x);
    assert Attributes([x]) == [x.attr] + Attributes([]);
  }
}
