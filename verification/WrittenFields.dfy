/** Fields that stand one after the other in a byte buffer, the most significant bit of each byte first. */
module WrittenFields {
  import opened Bits

  /** The data holds `fields`, one after the other, from bit `pos` on. */
  predicate Written(data: seq<byte>, pos: nat, fields: seq<Field>)
    decreases fields
  {
    fields == [] ||
    (&& pos + fields[0].width <= 8 * |data|
     && Window(data, pos, fields[0].width) == fields[0].value
     && Written(data, pos + fields[0].width, fields[1..]))
  }

  lemma WrittenFirst(data: seq<byte>, pos: nat, f: Field, rest: seq<Field>)
    ensures WidthOf([f] + rest) == f.width + WidthOf(rest)
    ensures Written(data, pos, [f] + rest)
            <==> pos + f.width <= 8 * |data| && Window(data, pos, f.width) == f.value
                 && Written(data, pos + f.width, rest)
  {
    assert ([f] + rest)[1..] == rest;
  }

  lemma WrittenOne(data: seq<byte>, pos: nat, f: Field)
    ensures WidthOf([f]) == f.width
    ensures Written(data, pos, [f]) <==> pos + f.width <= 8 * |data| && Window(data, pos, f.width) == f.value
  {
    assert [f] == [f] + [];
    WrittenFirst(data, pos, f, []);
  }

  lemma WrittenTwo(data: seq<byte>, pos: nat, f: Field, g: Field)
    ensures WidthOf([f, g]) == f.width + g.width
    ensures Written(data, pos, [f, g])
            <==> pos + f.width + g.width <= 8 * |data|
                 && Window(data, pos, f.width) == f.value && Window(data, pos + f.width, g.width) == g.value
  {
    assert [f, g] == [f] + [g];
    WrittenFirst(data, pos, f, [g]);
    WrittenOne(data, pos + f.width, g);
  }

  lemma {:induction false} WrittenBoth(data: seq<byte>, pos: nat, a: seq<Field>, b: seq<Field>)
    ensures WidthOf(a + b) == WidthOf(a) + WidthOf(b)
    ensures Written(data, pos, a + b) <==> Written(data, pos, a) && Written(data, pos + WidthOf(a), b)
    decreases a
  {
    hide Window, Written, WidthOf;
    if a == [] {
      assert a + b == b;
      WrittenNone(data, pos);
    } else {
      var f, rest := a[0], a[1..];
      assert a == [f] + rest && a + b == [f] + (rest + b);
      WrittenFirst(data, pos, f, rest);
      WrittenFirst(data, pos, f, rest + b);
      WrittenBoth(data, pos + f.width, rest, b);
    }
  }

  lemma WrittenNone(data: seq<byte>, pos: nat)
    ensures WidthOf([]) == 0 && Written(data, pos, [])
  {}
}
