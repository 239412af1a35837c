/** The walk over the fields of a product information area, and what it finds. */
module FruWalk {
  import opened Common
  import opened FruText
  import opened FruDecoder

  // The walk over the fields.

  const METRICS: seq<string> := [
    "inventory/product_manufacturer", "inventory/product_name", "", "", "inventory/product_serial"]

  datatype Inventory = Fields(texts: map<string, seq<byte>>) | Panicked

  /** Where field i starts: three bytes of area header, then one field after
      another; a start outside the area stays where it is. */
  function FieldStart(area: seq<byte>, i: nat): nat {
    if i == 0 then 3
    else
      var before := FieldStart(area, i - 1);
      if before < |area| then before + area[before] % 0x40 + 1 else before
  }

  /** The named ones among fields i, i+1, ... 4, added to texts. */
  function FieldsFrom(area: seq<byte>, i: nat, running: bool, texts: map<string, seq<byte>>): Inventory
    decreases 5 - i
  {
    var start := FieldStart(area, i);
    if i >= 5 || start >= |area| then Fields(texts)
    else if METRICS[i] == "" then FieldsFrom(area, i + 1, running, texts)
    else match AreaText(area[start..], running)
      case Panic => Panicked
      case Text(bytes) => FieldsFrom(area, i + 1, running, texts[METRICS[i] := bytes])
  }

  method ReadFields(area: seq<byte>, running: bool) returns (r: Inventory)
    requires |area| < 0x100  // a byte product
    ensures r == FieldsFrom(area, 0, running, map[])
  {
    var texts: map<string, seq<byte>> := map[];
    var offset: uint16 := 3;
    for i := 0 to 5
      invariant offset == FieldStart(area, i)
      invariant FieldsFrom(area, i, running, texts) == FieldsFrom(area, 0, running, map[])
    {
      if offset >= |area| {
        break;
      }
      if METRICS[i] != "" {
        var text := GetFruAreaString(area[offset..], running);
        if text.Panic? {
          return Panicked;
        }
        texts := texts[METRICS[i] := text.bytes];
      }
      offset := area[offset] % 0x40 + offset + 1;
    }
    return Fields(texts);
  }

  function EncodeAll(fs: seq<Field>): seq<byte>
    requires forall f <- fs :: f.Valid()
  {
    if fs == [] then [] else fs[0].Encode() + EncodeAll(fs[1..])
  }

  lemma {:induction false} FieldStartsThere(head: seq<byte>, fs: seq<Field>, rest: seq<byte>, i: nat)
    requires |head| == 3 && i <= |fs| && forall f <- fs :: f.Valid()
    ensures var area := head + EncodeAll(fs) + rest;
      FieldStart(area, i) <= |area| && area[FieldStart(area, i)..] == EncodeAll(fs[i..]) + rest
  {
    hide Field.Encode;
    var area := head + EncodeAll(fs) + rest;
    if i == 0 {
      assert area[3..] == EncodeAll(fs) + rest && fs[0..] == fs;
    } else {
      FieldStartsThere(head, fs, rest, i - 1);
      EncodeFrom(fs, i - 1);
      assert EncodeAll(fs[i - 1..]) + rest == fs[i - 1].Encode() + (EncodeAll(fs[i..]) + rest);
      NextField(area, FieldStart(area, i - 1), fs[i - 1], EncodeAll(fs[i..]) + rest);
    }
  }

  lemma EncodeFrom(fs: seq<Field>, i: nat)
    requires i < |fs| && forall f <- fs :: f.Valid()
    ensures fs[i].Valid() && EncodeAll(fs[i..]) == fs[i].Encode() + EncodeAll(fs[i + 1..])
  {
  }

  lemma NextField(area: seq<byte>, s: nat, f: Field, tail: seq<byte>)
    requires f.Valid() && s <= |area| && area[s..] == f.Encode() + tail
    ensures s < |area| && area[s] % 0x40 == |f.payload|
    ensures s + |f.payload| + 1 <= |area| && area[s + |f.payload| + 1..] == tail
  {
  }

  /** The text of field i of an encoded area. */
  lemma FieldHasItsText(head: seq<byte>, fs: seq<Field>, rest: seq<byte>, i: nat, running: bool)
    requires |head| == 3 && i < |fs| && forall f <- fs :: f.Valid()
    ensures var area := head + EncodeAll(fs) + rest;
      && FieldStart(area, i) < |area|
      && AreaText(area[FieldStart(area, i)..], running) == TextOf(fs[i], running)
  {
    hide AreaText, TextOf, Field.Encode, FieldStart;
    FieldStartsThere(head, fs, rest, i);
    EncodeFrom(fs, i);
    var tail := EncodeAll(fs[i + 1..]) + rest;
    assert EncodeAll(fs[i..]) + rest == fs[i].Encode() + tail;
    FieldIsLocal(fs[i], tail, running);
  }

  /** The named ones among these fields. */
  function Named(fs: seq<Field>, running: bool): Inventory
    requires |fs| >= 5
  {
    var manufacturer, name, serial := TextOf(fs[0], running), TextOf(fs[1], running), TextOf(fs[4], running);
    if manufacturer.Panic? || name.Panic? || serial.Panic? then Panicked
    else Fields(map["inventory/product_manufacturer" := manufacturer.bytes,
                    "inventory/product_name" := name.bytes,
                    "inventory/product_serial" := serial.bytes])
  }

  /** The walk undoes the encoding: of an area that stores five fields or more
      it returns the texts of the first, second and fifth. */
  lemma WalkInvertsEncoding(head: seq<byte>, fs: seq<Field>, rest: seq<byte>, running: bool)
    requires |head| == 3 && |fs| >= 5 && forall f <- fs :: f.Valid()
    ensures FieldsFrom(head + EncodeAll(fs) + rest, 0, running, map[]) == Named(fs, running)
  {
    hide TextOf, AreaText, FieldStart, EncodeAll;
    var area := head + EncodeAll(fs) + rest;
    FieldHasItsText(head, fs, rest, 0, running);
    FieldHasItsText(head, fs, rest, 1, running);
    FieldHasItsText(head, fs, rest, 2, running);
    FieldHasItsText(head, fs, rest, 3, running);
    FieldHasItsText(head, fs, rest, 4, running);
    var t0, t1, t4 := TextOf(fs[0], running), TextOf(fs[1], running), TextOf(fs[4], running);
    if t0.Text? && t1.Text? {
      var m := map[METRICS[0] := t0.bytes][METRICS[1] := t1.bytes];
      assert FieldsFrom(area, 1, running, map[METRICS[0] := t0.bytes]) == FieldsFrom(area, 2, running, m);
      assert FieldsFrom(area, 2, running, m) == FieldsFrom(area, 3, running, m) == FieldsFrom(area, 4, running, m);
      if t4.Text? {
        assert FieldsFrom(area, 5, running, m[METRICS[4] := t4.bytes]) == Fields(m[METRICS[4] := t4.bytes]);
      }
    }
  }
}
