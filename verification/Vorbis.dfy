/**
 Vorbis comments as FLAC carries them (section 8.6 of RFC 9639): how they are
 written, a reader made from the standard, and that the reader gets back
 everything that was written.
 */
module Vorbis {
  import opened Common
  import opened ByteData

  /** One comment: a field name and its value. */
  datatype Comment = Comment(key: Bytes, value: Bytes)

  datatype Tag = Tag(vendor: Bytes, items: seq<Comment>)

  /** "=" */
  const EQUALS: Byte := 61

  /** "musicfs" */
  const DEFAULT_VENDOR: Bytes := [109, 117, 115, 105, 99, 102, 115]

  // ----- writing -----

  /** A length cast to 32 bits, little-endian. */
  function Le32(n: nat): Bytes {
    [n % 0x100, n / 0x100 % 0x100, n / 0x100 / 0x100 % 0x100, n / 0x100 / 0x100 / 0x100 % 0x100]
  }

  function Prefixed(s: Bytes): Bytes { Le32(|s|) + s }

  function Text(c: Comment): Bytes { c.key + [EQUALS] + c.value }

  function WriteComments(items: seq<Comment>): Bytes {
    if items == [] then [] else Prefixed(Text(items[0])) + WriteComments(items[1..])
  }

  function Vendor(tag: Tag): Bytes { if tag.vendor == [] then DEFAULT_VENDOR else tag.vendor }

  function Serialize(tag: Tag): Bytes {
    Prefixed(Vendor(tag)) + (Le32(|tag.items|) + WriteComments(tag.items))
  }

  lemma {:induction false} WriteCommentsSnoc(items: seq<Comment>, k: nat)
    requires k < |items|
    ensures WriteComments(items[..k + 1]) == WriteComments(items[..k]) + Prefixed(Text(items[k]))
    decreases k
  {
    hide Prefixed, Text;
    if k == 0 {
      assert items[..1] == [items[0]] && items[..1][1..] == [];
    } else {
      WriteCommentsSnoc(items[1..], k - 1);
      assert items[..k + 1][1..] == items[1..][..k] && items[..k][1..] == items[1..][..k - 1];
    }
  }

  method SerializeVorbisComments(tag: Tag) returns (data: Bytes)
    ensures data == Serialize(tag)
  {
    var vendor := if tag.vendor == [] then DEFAULT_VENDOR else tag.vendor;
    hide Le32, Text;
    data := [];
    data := data + Le32(|vendor|);
    data := data + vendor;
    ghost var head := data;
    data := data + Le32(|tag.items|);
    ghost var start := data;
    for i := 0 to |tag.items|
      invariant data == start + WriteComments(tag.items[..i])
    {
      WriteCommentsSnoc(tag.items, i);
      var comment := Text(tag.items[i]);
      data := data + Le32(|comment|);
      data := data + comment;
    }
    assert tag.items[..|tag.items|] == tag.items;
  }

  // ----- reading -----

  function FromLe32(b: Bytes): nat
    requires |b| >= 4
  {
    (b[0] as nat) + 0x100 * (b[1] as nat) + 0x1_0000 * (b[2] as nat) + 0x100_0000 * (b[3] as nat)
  }

  /** A length and that many bytes, with what follows them. */
  function ReadPrefixed(b: Bytes): Option<(Bytes, Bytes)> {
    if |b| < 4 then None
    else
      var n := FromLe32(b);
      if n > |b| - 4 then None else Some((b[4..4 + n], b[4 + n..]))
  }

  /** Everything up to the first "=", and everything after it. */
  function SplitAtEquals(text: Bytes): Option<Comment> {
    if text == [] then None
    else if text[0] == EQUALS then Some(Comment([], text[1..]))
    else match SplitAtEquals(text[1..])
      case None => None
      case Some(c) => Some(Comment([text[0]] + c.key, c.value))
  }

  function ReadComments(b: Bytes, count: nat): Option<(seq<Comment>, Bytes)> {
    if count == 0 then Some(([], b))
    else match ReadPrefixed(b)
      case None => None
      case Some((text, rest)) =>
        match (SplitAtEquals(text), ReadComments(rest, count - 1))
        case (Some(c), Some((cs, end))) => Some(([c] + cs, end))
        case _ => None
  }

  /** The vendor, the comments, and what follows the comment block. */
  function Deserialize(b: Bytes): Option<(Tag, Bytes)> {
    match ReadPrefixed(b)
    case None => None
    case Some((vendor, rest)) =>
      if |rest| < 4 then None
      else match ReadComments(rest[4..], FromLe32(rest))
        case None => None
        case Some((items, end)) => Some((Tag(vendor, items), end))
  }

  // ----- reading what was written -----

  /** Lengths fit 32 bits and no field name contains "=". */
  predicate Writable(tag: Tag) {
    && |tag.vendor| < U32 && |tag.items| < U32
    && forall c :: c in tag.items ==> EQUALS !in c.key && |Text(c)| < U32
  }

  lemma Digits(n: nat)
    ensures n % 0x100 + 0x100 * (n / 0x100 % 0x100) + 0x1_0000 * (n / 0x100 / 0x100 % 0x100)
            + 0x100_0000 * (n / 0x100 / 0x100 / 0x100 % 0x100) == n % U32
  {
    var a, b, c := n / 0x100, n / 0x100 / 0x100, n / 0x100 / 0x100 / 0x100;
    var d := c / 0x100;
    var low := n % 0x100 + 0x100 * (a % 0x100) + 0x1_0000 * (b % 0x100) + 0x100_0000 * (c % 0x100);
    assert n == U32 * d + low;
    Remainder32(d, low);
  }

  lemma Le32RoundTrip(n: nat, rest: Bytes)
    ensures |Le32(n)| == 4 && FromLe32(Le32(n) + rest) == n % U32
  {
    Digits(n);
    var a, b, c, d := n % 0x100, n / 0x100 % 0x100, n / 0x100 / 0x100 % 0x100, n / 0x100 / 0x100 / 0x100 % 0x100;
    assert Le32(n) == [a, b, c, d];
    hide Le32;
    assert ([a, b, c, d] + rest)[0] == a;
  }

  lemma PrefixedRoundTrip(s: Bytes, rest: Bytes)
    requires |s| < U32
    ensures ReadPrefixed(Prefixed(s) + rest) == Some((s, rest))
  {
    var b := Prefixed(s) + rest;
    Le32RoundTrip(|s|, s + rest);
    assert b == Le32(|s|) + (s + rest);
    hide Le32, FromLe32;
    assert b[4..4 + |s|] == s && b[4 + |s|..] == rest;
  }

  lemma {:induction false} SplitText(c: Comment)
    requires EQUALS !in c.key
    ensures SplitAtEquals(Text(c)) == Some(c)
    decreases |c.key|
  {
    if c.key == [] {
      assert Text(c)[1..] == c.value;
    } else {
      var c1 := Comment(c.key[1..], c.value);
      assert forall b :: b in c1.key ==> b in c.key;
      SplitText(c1);
      assert Text(c)[1..] == Text(c1) && Text(c)[0] == c.key[0];
      assert [c.key[0]] + c1.key == c.key;
    }
  }

  lemma {:induction false} CommentsRoundTrip(items: seq<Comment>, rest: Bytes)
    requires forall c :: c in items ==> EQUALS !in c.key && |Text(c)| < U32
    ensures ReadComments(WriteComments(items) + rest, |items|) == Some((items, rest))
    decreases |items|
  {
    hide Prefixed, Text, SplitAtEquals, ReadPrefixed;
    if items == [] {
      assert WriteComments(items) + rest == rest;
    } else {
      var c, tail := items[0], WriteComments(items[1..]) + rest;
      assert c in items;
      PrefixedRoundTrip(Text(c), tail);
      SplitText(c);
      CommentsRoundTrip(items[1..], rest);
      Regroup3(Prefixed(Text(c)), WriteComments(items[1..]), rest);
      assert [c] + items[1..] == items;
    }
  }

  /** What a reader is to find: every comment, and "musicfs" as vendor if there was
      none. */
  function Written(tag: Tag): Tag {
    Tag(if tag.vendor == [] then [109, 117, 115, 105, 99, 102, 115] else tag.vendor, tag.items)
  }

  /** The reader recovers the vendor and every comment in order, and stops right
      behind them. */
  lemma SerializeRoundTrip(tag: Tag, rest: Bytes)
    requires Writable(tag)
    ensures Deserialize(Serialize(tag) + rest) == Some((Written(tag), rest))
  {
    var vendor := Vendor(tag);
    var body := WriteComments(tag.items) + rest;
    var counted := Le32(|tag.items|) + body;
    assert |vendor| < U32;
    assert Serialize(tag) + rest == Prefixed(vendor) + counted by {
      Regroup(Prefixed(vendor), Le32(|tag.items|), WriteComments(tag.items), rest);
    }
    assert Written(tag) == Tag(vendor, tag.items);
    hide *;
    CountedRoundTrip(tag.items, rest);
    DeserializeStep(vendor, counted);
  }

  lemma CountedRoundTrip(items: seq<Comment>, rest: Bytes)
    requires |items| < U32 && forall c :: c in items ==> EQUALS !in c.key && |Text(c)| < U32
    ensures var counted := Le32(|items|) + (WriteComments(items) + rest);
      |counted| >= 4 && ReadComments(counted[4..], FromLe32(counted)) == Some((items, rest))
  {
    var body := WriteComments(items) + rest;
    hide Le32, FromLe32, ReadComments, WriteComments;
    Le32RoundTrip(|items|, body);
    assert FromLe32(Le32(|items|) + body) == |items|;
    TakeBack(Le32(|items|), body);
    CommentsRoundTrip(items, rest);
  }

  lemma TakeBack(a: Bytes, b: Bytes)
    ensures (a + b)[|a|..] == b
  {
  }

  lemma DeserializeStep(vendor: Bytes, counted: Bytes)
    requires |vendor| < U32 && |counted| >= 4
    requires ReadComments(counted[4..], FromLe32(counted)).Some?
    ensures var (items, end) := ReadComments(counted[4..], FromLe32(counted)).value;
      Deserialize(Prefixed(vendor) + counted) == Some((Tag(vendor, items), end))
  {
    PrefixedRoundTrip(vendor, counted);
    hide Prefixed, ReadPrefixed, ReadComments, FromLe32;
  }

  lemma Regroup(a: Bytes, b: Bytes, c: Bytes, d: Bytes)
    ensures (a + (b + c)) + d == a + (b + (c + d))
  {
  }

  /** So no two tags are written alike, unless they differ only in having no vendor
      or the default one. */
  lemma SerializeInjective(a: Tag, b: Tag)
    requires Writable(a) && Writable(b) && Serialize(a) == Serialize(b)
    ensures Written(a) == Written(b)
  {
    SerializeRoundTrip(a, []);
    SerializeRoundTrip(b, []);
    hide *;
  }
}
