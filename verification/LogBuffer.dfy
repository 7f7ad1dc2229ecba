// The log stream: items appended to a buffer of fixed size, texts as far as
// they fit, numbers whole or not at all.

/** `FixedBuffer` and `LogStream`. */
module LogBuffers {
  import opened Basics
  import opened Numerals

  // kMaxNumericSize
  const MAX_NUMERIC: nat := 32

  /** What `operator<<` is called with.  Integers of all widths are one case, as
      the source converts them with one template. */
  datatype Item =
    | Flag(b: bool)
    | Letter(c: char)
    | Text(s: Option<string>)        // None for a null `const char *`
    | Number(v: Integer)
    | Handle(p: Address)

  /** The full text of an item. */
  function Rendering(x: Item): string {
    match x
    case Flag(b) => if b then "1" else "0"
    case Letter(c) => [c]
    case Text(s) => if s.Some? then s.value else "(null)"
    case Number(v) => Decimal(v)
    case Handle(p) => "0x" + Numeral(p, 16)
  }

  /** Every item can be read from its text. */
  lemma ItemReadsBack(x: Item)
    ensures
      var r := Rendering(x);
      match x
      case Flag(b) => ParseDecimal(r) == if b then 1 else 0
      case Letter(c) => |r| == 1 && r[0] == c
      case Text(s) => r == if s.Some? then s.value else "(null)"
      case Number(v) => ParseDecimal(r) == v
      case Handle(p) => r[..2] == "0x" && ValueOf(r[2..], 16) == p
  {
    match x
    case Flag(b) => DecimalRoundTrip(if b then 1 else 0);
    case Number(v) => DecimalRoundTrip(v);
    case Handle(p) =>
      NumeralReadsBack(p, 16);
      assert Rendering(x)[2..] == Numeral(p, 16);
    case _ =>
  }

  predicate Whole(x: Item) {
    x.Number? || x.Handle?
  }

  /** What an item contributes when `avail` characters are free. */
  function Contribution(x: Item, avail: nat): (r: string)
    ensures |r| <= avail && r <= Rendering(x)
  {
    var full := Rendering(x);
    if Whole(x) then
      FitsNumeric(x);
      if avail >= MAX_NUMERIC then full else ""
    else if avail > |full| then full
    else full[..avail]
  }

  lemma FitsNumeric(x: Item)
    requires Whole(x)
    ensures 1 <= |Rendering(x)| <= 20
  {
    if x.Number? { DecimalFits(x.v); } else { HexFits(x.p); }
  }

  /** The contents of a buffer of the given size after a run of items. */
  function Logged(contents: string, items: seq<Item>, size: nat): (r: string)
    requires |contents| <= size
    decreases |items|
  {
    if items == [] then contents
    else Logged(contents + Contribution(items[0], size - |contents|), items[1..], size)
  }

  function AllRendered(items: seq<Item>): string {
    if items == [] then "" else Rendering(items[0]) + AllRendered(items[1..])
  }

  /** A run of items never overflows the buffer and never alters what is there. */
  lemma {:induction false} LogGrows(contents: string, items: seq<Item>, size: nat)
    requires |contents| <= size
    ensures |Logged(contents, items, size)| <= size
    ensures contents <= Logged(contents, items, size)
    ensures |Logged(contents, items, size)| <= |contents| + |AllRendered(items)|
    decreases |items|
  {
    if items != [] {
      LogGrows(contents + Contribution(items[0], size - |contents|), items[1..], size);
    }
  }

  /** Every number finds 32 characters free and every text fits. */
  predicate NothingCut(used: nat, items: seq<Item>, size: nat)
    decreases |items|
  {
    items == [] ||
    var full := |Rendering(items[0])|;
    && used + full <= size
    && (Whole(items[0]) ==> used + MAX_NUMERIC <= size)
    && NothingCut(used + full, items[1..], size)
  }

  /** The log is the concatenation of all renderings exactly if nothing is cut. */
  lemma {:induction false} CompleteExactly(contents: string, items: seq<Item>, size: nat)
    requires |contents| <= size
    ensures Logged(contents, items, size) == contents + AllRendered(items) <==>
            NothingCut(|contents|, items, size)
    decreases |items|
  {
    if items == [] {
      assert contents + "" == contents;
    } else {
      var x := items[0];
      var c := Contribution(x, size - |contents|);
      LogGrows(contents + c, items[1..], size);
      if Whole(x) { FitsNumeric(x); }
      if c == Rendering(x) {
        CompleteExactly(contents + c, items[1..], size);
        AppendAssoc(contents, c, AllRendered(items[1..]));
      } else {
        assert |c| < |Rendering(x)|;
      }
    }
  }

  // ----- what a log that is not complete holds -----

  function Cut(text: string, size: nat): string {
    if |text| <= size then text else text[..size]
  }

  /** The items that are not refused: a number is if it finds fewer than 32
      characters free behind `used` ones. */
  function Kept(used: nat, items: seq<Item>, size: nat): seq<Item>
    requires used <= size
    decreases |items|
  {
    if items == [] then []
    else if Whole(items[0]) && size - used < MAX_NUMERIC then Kept(used, items[1..], size)
    else
      var n := used + |Rendering(items[0])|;
      [items[0]] + Kept(if n < size then n else size, items[1..], size)
  }

  /** The log is the text of the items kept, cut where the buffer ends: texts are
      never dropped, and nothing but its end is missing. */
  lemma {:induction false} LogIsCut(contents: string, items: seq<Item>, size: nat)
    requires |contents| <= size
    ensures Logged(contents, items, size) == Cut(contents + AllRendered(Kept(|contents|, items, size)), size)
    decreases |items|
  {
    if items == [] {
      assert contents + "" == contents;
    } else {
      var x, rest := items[0], items[1..];
      if Whole(x) && size - |contents| < MAX_NUMERIC {
        RefusedFirst(contents, items, size);
        LogIsCut(contents, rest, size);
      } else {
        var next := Cut(contents + Rendering(x), size);
        var kept := Kept(|next|, rest, size);
        KeptFirst(contents, items, size);
        LogIsCut(next, rest, size);
        CutAgain(contents, Rendering(x), AllRendered(kept), size);
      }
    }
  }

  lemma RefusedFirst(contents: string, items: seq<Item>, size: nat)
    requires items != [] && |contents| <= size
    requires Whole(items[0]) && size - |contents| < MAX_NUMERIC
    ensures Logged(contents, items, size) == Logged(contents, items[1..], size)
    ensures Kept(|contents|, items, size) == Kept(|contents|, items[1..], size)
  {
    assert contents + "" == contents;
  }

  lemma KeptFirst(contents: string, items: seq<Item>, size: nat)
    requires items != [] && |contents| <= size
    requires Whole(items[0]) ==> size - |contents| >= MAX_NUMERIC
    ensures
      var next := Cut(contents + Rendering(items[0]), size);
      && Logged(contents, items, size) == Logged(next, items[1..], size)
      && AllRendered(Kept(|contents|, items, size)) ==
         Rendering(items[0]) + AllRendered(Kept(|next|, items[1..], size))
  {
    var x, rest := items[0], items[1..];
    var next := Cut(contents + Rendering(x), size);
    ContributionIsCut(contents, x, size);
    assert Kept(|contents|, items, size) == [x] + Kept(|next|, rest, size);
    RenderedFirst(x, Kept(|next|, rest, size));
  }

  lemma ContributionIsCut(contents: string, x: Item, size: nat)
    requires |contents| <= size && (Whole(x) ==> size - |contents| >= MAX_NUMERIC)
    ensures contents + Contribution(x, size - |contents|) == Cut(contents + Rendering(x), size)
  {
    if Whole(x) { FitsNumeric(x); }
  }

  lemma RenderedFirst(x: Item, items: seq<Item>)
    ensures AllRendered([x] + items) == Rendering(x) + AllRendered(items)
  {
    assert ([x] + items)[1..] == items;
  }

  /** What is appended to a text that was cut is cut off whole. */
  lemma CutAgain(a: string, b: string, c: string, size: nat)
    ensures Cut(Cut(a + b, size) + c, size) == Cut(a + (b + c), size)
  {
    AppendAssoc(a, b, c);
    assert |a + b| > size ==> (Cut(a + b, size) + c)[..size] == (a + b)[..size] == (a + b + c)[..size];
  }

  /** So a log of texts alone is their concatenation, as far as it fits. */
  lemma {:induction false} TextsAreCut(contents: string, items: seq<Item>, size: nat)
    requires |contents| <= size && forall x :: x in items ==> !Whole(x)
    ensures Logged(contents, items, size) == Cut(contents + AllRendered(items), size)
  {
    LogIsCut(contents, items, size);
    TextsAreKept(|contents|, items, size);
  }

  lemma {:induction false} TextsAreKept(used: nat, items: seq<Item>, size: nat)
    requires used <= size && forall x :: x in items ==> !Whole(x)
    ensures Kept(used, items, size) == items
    decreases |items|
  {
    if items != [] {
      assert items[0] in items;
      var n := used + |Rendering(items[0])|;
      TextsAreKept(if n < size then n else size, items[1..], size);
    }
  }

  /** `FixedBuffer<SIZE>`. */
  class FixedBuffer {
    const data: array<char>          // m_data
    var cur: nat                     // m_cur, as an index

    ghost predicate Valid()
      reads this
    {
      cur <= data.Length
    }

    ghost function Contents(): string
      requires Valid()
      reads this, data
    {
      data[..cur]
    }

    constructor (size: nat)
      ensures Valid() && Contents() == "" && data.Length == size && fresh(data)
    {
      data := new char[size](_ => '\0');
      cur := 0;
    }

    function Avail(): nat
      requires Valid()
      reads this
    {
      data.Length - cur
    }

    method Append(buf: string) returns (n: nat)
      requires Valid()
      modifies this, data
      ensures Valid() && n == if old(Avail()) > |buf| then |buf| else old(Avail())
      ensures Contents() == old(Contents()) + buf[..n]
    {
      n := if Avail() > |buf| then |buf| else Avail();
      ghost var before := Contents();
      forall i | 0 <= i < n {
        data[cur + i] := buf[i];
      }
      assert data[..cur] == before;
      assert data[cur..cur + n] == buf[..n];
      cur := cur + n;
      assert data[..cur] == before + buf[..n];
    }

    method Add(len: nat)
      requires cur + len <= data.Length
      modifies this
      ensures Valid() && cur == old(cur) + len
    {
      cur := cur + len;
    }

    method Reset()
      modifies this
      ensures Valid() && Contents() == ""
    {
      cur := 0;
    }
  }

  /** `LogStream`. */
  class LogStream {
    const buffer: FixedBuffer

    ghost predicate Valid()
      reads this, buffer
    {
      buffer.Valid()
    }

    constructor (size: nat)
      ensures Valid() && buffer.Contents() == "" && buffer.data.Length == size
      ensures fresh(buffer) && fresh(buffer.data)
    {
      buffer := new FixedBuffer(size);
    }

    /** `formatInteger` */
    method FormatInteger(v: Integer)
      requires Valid()
      modifies buffer, buffer.data
      ensures Valid()
      ensures buffer.Contents() == old(buffer.Contents() + Contribution(Number(v), buffer.Avail()))
    {
      ghost var before := buffer.Contents();
      if buffer.Avail() >= MAX_NUMERIC {
        var cur := buffer.cur;
        var len := Convert(buffer.data, cur, v);
        assert buffer.data[..cur] == before;
        buffer.Add(len);
        assert buffer.Contents() == buffer.data[..cur] + buffer.data[cur..cur + len];
      }
    }

    /** `operator<<(const void *)`: prefix, then the digits. */
    method FormatAddress(p: Address)
      requires Valid()
      modifies buffer, buffer.data
      ensures Valid()
      ensures buffer.Contents() == old(buffer.Contents() + Contribution(Handle(p), buffer.Avail()))
    {
      ghost var before := buffer.Contents();
      if buffer.Avail() >= MAX_NUMERIC {
        var cur := buffer.cur;
        var len := ConvertAddress(buffer.data, cur, p);
        assert buffer.data[..cur] == before;
        buffer.Add(len);
        assert buffer.Contents() == buffer.data[..cur] + buffer.data[cur..cur + len];
      }
    }

    /** The remaining overloads append their text. */
    method AppendText(x: Item)
      requires Valid() && !Whole(x)
      modifies buffer, buffer.data
      ensures Valid()
      ensures buffer.Contents() == old(buffer.Contents() + Contribution(x, buffer.Avail()))
    {
      var text;
      match x {
        case Flag(b) => text := if b then "1" else "0";
        case Letter(c) => text := [c];
        case Text(s) => text := if s.Some? then s.value else "(null)";
      }
      var _ := buffer.Append(text);
    }

    /** `resetBuffer` */
    method ResetBuffer()
      modifies buffer
      ensures Valid() && buffer.Contents() == ""
    {
      buffer.Reset();
    }

    /** A chain of `<<`. */
    method Put(items: seq<Item>)
      requires Valid()
      modifies buffer, buffer.data
      ensures Valid()
      ensures buffer.Contents() == Logged(old(buffer.Contents()), items, buffer.data.Length)
    {
      ghost var goal := Logged(buffer.Contents(), items, buffer.data.Length);
      ghost var rest := items;
      for i := 0 to |items|
        invariant Valid() && rest == items[i..]
        invariant Logged(buffer.Contents(), rest, buffer.data.Length) == goal
      {
        match items[i] {
          case Number(v) => FormatInteger(v);
          case Handle(p) => FormatAddress(p);
          case _ => AppendText(items[i]);
        }
        rest := rest[1..];
      }
    }
  }
}
