/** Encoding BDF objects: the writer as it runs, appending to a buffer. */
module BdfWriter {
  import opened Words
  import opened BigEndian
  import opened Bdf

  /** A growing byte buffer. */
  class Buffer {
    var bytes: seq<byte>

    constructor ()
      ensures bytes == []
    {
      bytes := [];
    }

    method Push(b: byte)
      modifies this
      ensures bytes == old(bytes) + [b]
    {
      bytes := bytes + [b];
    }

    method Extend(more: seq<byte>)
      modifies this
      ensures bytes == old(bytes) + more
    {
      bytes := bytes + more;
    }
  }

  method PushBe(number: i64, length: nat, out: Buffer)
    requires IntWidth(length)
    modifies out
    ensures out.bytes == old(out.bytes) + IntBytes(number, length)
  {
    var skip := 8 - length;
    out.Extend(Digits(number % TWO_64, 8)[skip..]);
  }

  method WriteSized(kind: byte, bytes: Slice, out: Buffer)
    requires kind == 0x40 || kind == 0x50
    modifies out
    ensures out.bytes == old(out.bytes) + Sized(kind, bytes)
  {
    var length := |bytes|;
    var lengthOfLength := MinimalIntLength(length);
    out.Push(kind + lengthOfLength);
    PushBe(length, lengthOfLength, out);
    out.Extend(bytes);
  }

  lemma Headed(before: seq<byte>, header: byte, body: seq<byte>)
    ensures before + [header] + body == before + ([header] + body)
  {
  }

  method WriteScalar(value: Value, out: Buffer)
    requires !value.List? && !value.Dict?
    modifies out
    ensures out.bytes == old(out.bytes) + Encoding(value)
  {
    if value.Null? {
      out.Push(0x00);
    } else if value.Bool? {
      out.Push(if value.truth then 0x11 else 0x10);
    } else if value.Int? {
      var length := MinimalIntLength(value.number);
      ghost var before := out.bytes;
      out.Push(0x20 + length);
      PushBe(value.number, length, out);
      Headed(before, 0x20 + length, IntBytes(value.number, length));
    } else if value.Float? {
      ghost var before := out.bytes;
      out.Push(0x38);
      out.Extend(value.bits);
      Headed(before, 0x38, value.bits);
    } else if value.Str? {
      WriteSized(0x40, value.text, out);
    } else {
      WriteSized(0x50, value.bytes, out);
    }
  }

  method WriteInto(value: Value, out: Buffer)
    modifies out
    ensures out.bytes == old(out.bytes) + Encoding(value)
    decreases value, 0
  {
    if value.List? {
      out.Push(0x60);
      WriteItems(value.items, out);
      out.Push(END);
      Enclosed(old(out.bytes), 0x60, EncodingItems(value.items));
    } else if value.Dict? {
      out.Push(0x70);
      WriteEntries(value.entries, out);
      out.Push(END);
      Enclosed(old(out.bytes), 0x70, EncodingEntries(value.entries));
    } else {
      WriteScalar(value, out);
    }
  }

  lemma Enclosed(before: seq<byte>, header: byte, body: seq<byte>)
    ensures before + [header] + body + [END] == before + ([header] + body + [END])
  {
  }

  method WriteItems(items: seq<Value>, out: Buffer)
    modifies out
    ensures out.bytes == old(out.bytes) + EncodingItems(items)
    decreases items, 1
  {
    for i := 0 to |items|
      invariant out.bytes + EncodingItems(items[i..]) == old(out.bytes) + EncodingItems(items)
    {
      ItemsTurn(out.bytes, items[i..]);
      assert items[i..][1..] == items[i + 1..];
      WriteInto(items[i], out);
    }
    assert out.bytes + [] == out.bytes;
  }

  lemma ItemsTurn(written: seq<byte>, items: seq<Value>)
    requires items != []
    ensures written + EncodingItems(items) == written + Encoding(items[0]) + EncodingItems(items[1..])
  {
  }

  method WriteEntries(entries: seq<Entry>, out: Buffer)
    modifies out
    ensures out.bytes == old(out.bytes) + EncodingEntries(entries)
    decreases entries, 1
  {
    for i := 0 to |entries|
      invariant out.bytes + EncodingEntries(entries[i..]) == old(out.bytes) + EncodingEntries(entries)
    {
      EntriesTurn(out.bytes, entries[i..]);
      assert entries[i..][1..] == entries[i + 1..];
      WriteSized(0x40, entries[i].key, out);
      WriteInto(entries[i].value, out);
    }
    assert out.bytes + [] == out.bytes;
  }

  lemma EntriesTurn(written: seq<byte>, entries: seq<Entry>)
    requires entries != []
    ensures written + EncodingEntries(entries)
         == written + Sized(0x40, entries[0].key) + Encoding(entries[0].value) + EncodingEntries(entries[1..])
  {
    Regrouped(written, Sized(0x40, entries[0].key), Encoding(entries[0].value), EncodingEntries(entries[1..]));
  }

  lemma Regrouped(a: seq<byte>, b: seq<byte>, c: seq<byte>, d: seq<byte>)
    ensures a + (b + c + d) == a + b + c + d
  {
  }

  method ToBytes(value: Value) returns (out: seq<byte>)
    ensures out == Encoding(value)
  {
    var buffer := new Buffer();
    WriteInto(value, buffer);
    out := buffer.bytes;
  }
}
