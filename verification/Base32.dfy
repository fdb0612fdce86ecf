// The key id's base32 loop (auth/src/serverHelpers.ts): an accumulator of 32 bits that is never
// masked still produces the encoding of section 6 of RFC 4648, without padding.
module Base32 {
  import opened Strings

  newtype byte = x: int | 0 <= x < 256

  const ALPHABET := "ABCDEFGHIJKLMNOPQRSTUVWXYZ234567"

  type Bits = seq<bool>

  // ---- the reference: five bits at a time, most significant first --------------------------

  function BitsOf(x: nat, n: nat): (bits: Bits)
    ensures |bits| == n
  {
    if n == 0 then [] else BitsOf(x / 2, n - 1) + [x % 2 == 1]
  }

  // All bits of the bytes, in order.
  function BitsOfAll(bytes: seq<byte>): (bits: Bits)
    ensures |bits| == 8 * |bytes|
  {
    if bytes == [] then [] else BitsOfAll(bytes[..|bytes| - 1]) + BitsOf(bytes[|bytes| - 1] as nat, 8)
  }

  function Val(bits: Bits): nat {
    if bits == [] then 0 else 2 * Val(bits[..|bits| - 1]) + if bits[|bits| - 1] then 1 else 0
  }

  function Zeros(n: nat): Bits { seq(n, _ => false) }

  lemma ValOfFive(bits: Bits)
    requires |bits| == 5
    ensures Val(bits) < 32
  {
    var a := bits[..4];
    var b := a[..3];
    var c := b[..2];
    assert Val(c) < 4 && Val(b) < 8 && Val(a) < 16;
  }

  type Group = g: Bits | |g| == 5 witness Zeros(5)

  // Each five bits form a group; a shorter last one is filled up with zeros.
  function Groups(bits: Bits): seq<Group> {
    if bits == [] then []
    else if |bits| < 5 then [bits + Zeros(5 - |bits|)]
    else [bits[..5]] + Groups(bits[5..])
  }

  function Symbol(group: Group): char {
    ValOfFive(group);
    ALPHABET[Val(group)]
  }

  function Render(groups: seq<Group>): string {
    if groups == [] then "" else Render(groups[..|groups| - 1]) + [Symbol(groups[|groups| - 1])]
  }

  function Encode(bits: Bits): string { Render(Groups(bits)) }

  lemma {:induction false} GroupsAppend(bits: Bits, more: Bits)
    requires |bits| % 5 == 0
    ensures Groups(bits + more) == Groups(bits) + Groups(more)
  {
    if bits == [] {
      assert bits + more == more;
    } else {
      var rest, all := bits[5..], bits + more;
      GroupsAppend(rest, more);
      assert all[..5] == bits[..5] && all[5..] == rest + more;
    }
  }

  lemma RenderAppend(groups: seq<Group>, group: Group)
    ensures Render(groups + [group]) == Render(groups) + [Symbol(group)]
  {
    assert (groups + [group])[..|groups|] == groups;
  }

  lemma EncodeAppend(bits: Bits, more: Bits, group: Group)
    requires |bits| % 5 == 0 && Groups(more) == [group]
    ensures Encode(bits + more) == Encode(bits) + [Symbol(group)]
  {
    GroupsAppend(bits, more);
    RenderAppend(Groups(bits), group);
  }

  // ---- JavaScript's operators on 32-bit patterns --------------------------------------------

  type Word = w: Bits | |w| == 32 witness Zeros(32)

  function Word8(b: byte): Word { Zeros(24) + BitsOf(b as nat, 8) }

  // w << n drops the n highest bits, w >>> n the n lowest.
  function ShiftLeft(w: Word, n: nat): Word
    requires n <= 32
  {
    w[n..] + Zeros(n)
  }

  function ShiftRight(w: Word, n: nat): Word
    requires n <= 32
  {
    Zeros(n) + w[..32 - n]
  }

  function Or(a: Word, b: Word): Word { seq(32, i requires 0 <= i < 32 => a[i] || b[i]) }

  function And(a: Word, b: Word): Word { seq(32, i requires 0 <= i < 32 => a[i] && b[i]) }

  // 31
  const LOW_FIVE: Word := Zeros(27) + [true, true, true, true, true]

  lemma {:induction false} ValOfPadded(n: nat, bits: Bits)
    ensures Val(Zeros(n) + bits) == Val(bits)
  {
    var all := Zeros(n) + bits;
    if bits != [] {
      ValOfPadded(n, bits[..|bits| - 1]);
      assert all[..|all| - 1] == Zeros(n) + bits[..|bits| - 1];
    } else if n > 0 {
      ValOfPadded(n - 1, []);
      assert all[..|all| - 1] == Zeros(n - 1) + [];
    }
  }

  // w & 31 is the number of the five lowest bits.
  lemma MaskedValue(w: Word)
    ensures Val(And(w, LOW_FIVE)) == Val(w[27..]) < 32
  {
    ValOfFive(w[27..]);
    ValOfPadded(27, w[27..]);
    assert And(w, LOW_FIVE) == Zeros(27) + w[27..];
  }

  // base32chars[w & 31]
  function Char(w: Word): char {
    MaskedValue(w);
    ALPHABET[Val(And(w, LOW_FIVE))]
  }

  // The accumulator holds the last 32 bits read, after zeros.
  function Last32(bits: Bits): Word { (Zeros(32) + bits)[|bits|..] }

  // value = (value << 8) | byte: eight bits enter below and eight are lost above.
  lemma ShiftInByte(bits: Bits, b: byte)
    ensures Or(ShiftLeft(Last32(bits), 8), Word8(b)) == Last32(bits + BitsOf(b as nat, 8))
  {
    var low := BitsOf(b as nat, 8);
    var all := Zeros(32) + bits;
    assert Zeros(32) + (bits + low) == all + low;
    assert Last32(bits + low) == all[|bits| + 8..] + low;
    assert ShiftLeft(Last32(bits), 8) == all[|bits| + 8..] + Zeros(8);
  }

  lemma CharIsSymbol(w: Word)
    ensures Char(w) == Symbol(w[27..])
  {
    MaskedValue(w);
  }

  // One pass of the inner loop: with at most seven bits below it, the next group is still held whole.
  lemma NextSymbol(bits: Bits, done: nat, below: nat)
    requires 5 * done + 5 + below == |bits| && below <= 27
    ensures Encode(bits[..5 * (done + 1)]) == Encode(bits[..5 * done]) + [Char(ShiftRight(Last32(bits), below))]
  {
    var c := 5 * done;
    var group, w := bits[c..c + 5], ShiftRight(Last32(bits), below);
    assert w[27..] == Last32(bits)[27 - below..32 - below] == group;
    CharIsSymbol(w);
    assert group[..5] == group && group[5..] == [];
    assert bits[..c + 5] == bits[..c] + group;
    EncodeAppend(bits[..c], group, group);
  }

  lemma LastFive(bits: Bits, left: nat)
    requires 1 <= left <= 4 && left <= |bits|
    ensures ShiftLeft(Last32(bits), 5 - left)[27..] == bits[|bits| - left..] + Zeros(5 - left)
  {
    assert Last32(bits)[32 - left..] == bits[|bits| - left..];
  }

  // The bits left over, moved up to fill a group, name the last symbol.
  lemma LastSymbol(bits: Bits, done: nat, left: nat)
    requires 1 <= left <= 4 && 5 * done + left == |bits|
    ensures Encode(bits) == Encode(bits[..5 * done]) + [Char(ShiftLeft(Last32(bits), 5 - left))]
  {
    var head, tail := bits[..5 * done], bits[5 * done..];
    LastFive(bits, left);
    CharIsSymbol(ShiftLeft(Last32(bits), 5 - left));
    assert bits == head + tail;
    EncodeAppend(head, tail, tail + Zeros(5 - left));
  }

  // ---- the loop ---------------------------------------------------------------------------

  lemma BitsOfPrefix(bytes: seq<byte>, i: nat)
    requires i < |bytes|
    ensures BitsOfAll(bytes[..i + 1]) == BitsOfAll(bytes[..i]) + BitsOf(bytes[i] as nat, 8)
  {
    assert bytes[..i + 1][..i] == bytes[..i];
  }

  // `done` groups of the bits read are in the result.
  predicate Packed(bits: Bits, done: nat, result: string) {
    5 * done <= |bits| && result == Encode(bits[..5 * done])
  }

  lemma PackMore(bits: Bits, more: Bits, done: nat, result: string)
    requires Packed(bits, done, result)
    ensures Packed(bits + more, done, result)
  {
    assert (bits + more)[..5 * done] == bits[..5 * done];
  }

  lemma PackedWhole(bits: Bits, done: nat, result: string)
    requires Packed(bits, done, result) && 5 * done == |bits|
    ensures result == Encode(bits)
  {
    assert bits[..|bits|] == bits;
  }

  // result += base32chars[(value >>> below) & 31]
  method AppendGroup(value: Word, below: nat, result: string, ghost read: Bits, ghost done: nat)
    returns (longer: string)
    requires value == Last32(read) && below <= 7
    requires Packed(read, done, result) && |read| == 5 * done + 5 + below
    ensures Packed(read, done + 1, longer)
  {
    NextSymbol(read, done, below);
    longer := result + [Char(ShiftRight(value, below))];
  }

  // result += base32chars[(value << (5 - left)) & 31]
  method AppendLast(value: Word, left: nat, result: string, ghost read: Bits, ghost done: nat)
    returns (longer: string)
    requires value == Last32(read) && 1 <= left <= 4
    requires Packed(read, done, result) && |read| == 5 * done + left
    ensures longer == Encode(read)
  {
    LastSymbol(read, done, left);
    longer := result + [Char(ShiftLeft(value, 5 - left))];
  }

  // The bit-packing loop of computeLibtrustKeyId.
  method PackBits(bytes: seq<byte>) returns (result: string)
    ensures result == Encode(BitsOfAll(bytes))
  {
    result := "";
    var bits, value := 0, Zeros(32);
    ghost var read: Bits, done := [], 0;
    for i := 0 to |bytes|
      invariant read == BitsOfAll(bytes[..i]) && value == Last32(read)
      invariant 0 <= bits < 5 && |read| == 5 * done + bits
      invariant Packed(read, done, result)
    {
      BitsOfPrefix(bytes, i);
      ShiftInByte(read, bytes[i]);
      PackMore(read, BitsOf(bytes[i] as nat, 8), done, result);
      read := read + BitsOf(bytes[i] as nat, 8);
      value := Or(ShiftLeft(value, 8), Word8(bytes[i]));
      bits := bits + 8;
      while bits >= 5
        invariant 0 <= bits <= 12 && |read| == 5 * done + bits
        invariant Packed(read, done, result)
      {
        result := AppendGroup(value, bits - 5, result, read, done);
        bits := bits - 5;
        done := done + 1;
      }
    }
    assert bytes[..|bytes|] == bytes;
    if bits > 0 {
      result := AppendLast(value, bits, result, read, done);
    } else {
      PackedWhole(read, done, result);
    }
  }

  // ---- the key id -------------------------------------------------------------------------

  // match(/.{1,4}/g)
  function Chunks(s: string): seq<string> {
    if s == "" then [] else if |s| <= 4 then [s] else [s[..4]] + Chunks(s[4..])
  }

  function KeyId(bytes: seq<byte>): string { Join(Chunks(Encode(BitsOfAll(bytes))), ':') }

  lemma {:induction false} GroupsLength(bits: Bits)
    ensures |Groups(bits)| == (|bits| + 4) / 5
  {
    if |bits| >= 5 { GroupsLength(bits[5..]); }
  }

  lemma SymbolNoColon(group: Group)
    ensures Symbol(group) != ':'
  {
    ValOfFive(group);
    assert ':' !in ALPHABET;
  }

  lemma {:induction false} RenderShape(groups: seq<Group>)
    ensures |Render(groups)| == |groups| && ':' !in Render(groups)
  {
    if groups != [] {
      RenderShape(groups[..|groups| - 1]);
      SymbolNoColon(groups[|groups| - 1]);
    }
  }

  // A symbol for every five bits, and one for what is left.
  lemma EncodeShape(bits: Bits)
    ensures |Encode(bits)| == (|bits| + 4) / 5 && ':' !in Encode(bits)
  {
    GroupsLength(bits);
    RenderShape(Groups(bits));
  }

  lemma {:induction false} ValInjective(a: Bits, b: Bits)
    requires |a| == |b| && Val(a) == Val(b)
    ensures a == b
  {
    if a != [] {
      var x, y := a[..|a| - 1], b[..|b| - 1];
      var p, q := if a[|a| - 1] then 1 else 0, if b[|b| - 1] then 1 else 0;
      assert Val(a) == 2 * Val(x) + p && Val(b) == 2 * Val(y) + q;
      assert p == q && Val(x) == Val(y);
      ValInjective(x, y);
      assert a == x + [a[|a| - 1]] && b == y + [b[|b| - 1]];
    }
  }

  lemma AlphabetDistinct(i: nat, j: nat)
    requires i < 32 && j < 32 && ALPHABET[i] == ALPHABET[j]
    ensures i == j
  {
    AlphabetCode(i);
    AlphabetCode(j);
  }

  lemma AlphabetCode(i: nat)
    requires i < 32
    ensures ALPHABET[i] == if i < 26 then 'A' + i as char else '2' + (i - 26) as char
  {}

  lemma SymbolInjective(a: Group, b: Group)
    requires Symbol(a) == Symbol(b)
    ensures a == b
  {
    ValOfFive(a);
    ValOfFive(b);
    AlphabetDistinct(Val(a), Val(b));
    ValInjective(a, b);
  }

  lemma {:induction false} RenderInjective(a: seq<Group>, b: seq<Group>)
    requires |a| == |b| && Render(a) == Render(b)
    ensures a == b
  {
    if a != [] {
      var n := |a| - 1;
      RenderShape(a[..n]);
      RenderShape(b[..n]);
      assert Render(a)[..n] == Render(a[..n]) && Render(b)[..n] == Render(b[..n]);
      RenderInjective(a[..n], b[..n]);
      assert Render(a)[n] == Symbol(a[n]) && Render(b)[n] == Symbol(b[n]);
      SymbolInjective(a[n], b[n]);
      assert a == a[..n] + [a[n]] && b == b[..n] + [b[n]];
    }
  }

  lemma {:induction false} GroupsInjective(a: Bits, b: Bits)
    requires |a| == |b| && Groups(a) == Groups(b)
    ensures a == b
  {
    if a == [] {
    } else if |a| < 5 {
      var x, y := a + Zeros(5 - |a|), b + Zeros(5 - |b|);
      assert x == Groups(a)[0] == Groups(b)[0] == y;
      assert a == x[..|a|] && b == y[..|b|];
    } else {
      assert a[..5] == Groups(a)[0] == Groups(b)[0] == b[..5];
      assert Groups(a[5..]) == Groups(a)[1..] && Groups(b[5..]) == Groups(b)[1..];
      GroupsInjective(a[5..], b[5..]);
      assert a == a[..5] + a[5..] && b == b[..5] + b[5..];
    }
  }

  lemma EncodeInjective(a: Bits, b: Bits)
    requires |a| == |b| && Encode(a) == Encode(b)
    ensures a == b
  {
    GroupsLength(a);
    GroupsLength(b);
    RenderInjective(Groups(a), Groups(b));
    GroupsInjective(a, b);
  }

  lemma {:induction false} BitsOfInjective(x: nat, y: nat, n: nat, bound: nat)
    requires BitsOf(x, n) == BitsOf(y, n) && x < bound && y < bound
    requires bound <= 1 || (n > 0 && BoundedBy(bound, n))
    ensures x == y
  {
    if n > 0 && bound > 1 {
      assert BitsOf(x, n)[..n - 1] == BitsOf(x / 2, n - 1) && BitsOf(y, n)[..n - 1] == BitsOf(y / 2, n - 1);
      assert BitsOf(x, n)[n - 1] == (x % 2 == 1) && BitsOf(y, n)[n - 1] == (y % 2 == 1);
      BitsOfInjective(x / 2, y / 2, n - 1, bound / 2);
    }
  }

  // bound is the n-th power of two
  predicate BoundedBy(bound: nat, n: nat) {
    if n == 0 then bound == 1 else bound % 2 == 0 && BoundedBy(bound / 2, n - 1)
  }

  lemma {:induction false} BitsInjective(a: seq<byte>, b: seq<byte>)
    requires |a| == |b| && BitsOfAll(a) == BitsOfAll(b)
    ensures a == b
  {
    if a != [] {
      var n := |a| - 1;
      var x, y := BitsOf(a[n] as nat, 8), BitsOf(b[n] as nat, 8);
      assert BitsOfAll(a) == BitsOfAll(a[..n]) + x && BitsOfAll(b) == BitsOfAll(b[..n]) + y;
      assert x == BitsOfAll(a)[8 * n..] == BitsOfAll(b)[8 * n..] == y;
      assert BitsOfAll(a[..n]) == BitsOfAll(a)[..8 * n] == BitsOfAll(b)[..8 * n] == BitsOfAll(b[..n]);
      BitsInjective(a[..n], b[..n]);
      BoundEight();
      BitsOfInjective(a[n] as nat, b[n] as nat, 8, 256);
      assert a == a[..n] + [a[n]] && b == b[..n] + [b[n]];
    }
  }

  lemma BoundEight()
    ensures BoundedBy(256, 8)
  {
    assert BoundedBy(4, 2);
    assert BoundedBy(16, 4);
    assert BoundedBy(64, 6);
  }

  function Flat(parts: seq<string>): string {
    if parts == [] then "" else parts[0] + Flat(parts[1..])
  }

  lemma {:induction false} ChunksShape(s: string)
    ensures Flat(Chunks(s)) == s && |Chunks(s)| == (|s| + 3) / 4
  {
    if s == "" {
    } else if |s| <= 4 {
      assert [s][1..] == [];
      assert Flat([s]) == s + Flat([]);
    } else {
      ChunksShape(s[4..]);
      assert ([s[..4]] + Chunks(s[4..]))[1..] == Chunks(s[4..]);
      assert s == s[..4] + s[4..];
    }
  }

  lemma {:induction false} ChunksParts(s: string)
    ensures forall p | p in Chunks(s) :: |s| % 4 == 0 ==> |p| == 4
    ensures forall p | p in Chunks(s) :: forall c | c in p :: c in s
  {
    if |s| > 4 {
      ChunksParts(s[4..]);
      assert forall c | c in s[4..] :: c in s;
      assert forall c | c in s[..4] :: c in s;
    }
  }

  // The groups of a key id are the chunks of its encoding.
  lemma KeyIdGroups(bytes: seq<byte>)
    requires bytes != []
    ensures Split(KeyId(bytes), ':') == Chunks(Encode(BitsOfAll(bytes)))
    ensures Flat(Split(KeyId(bytes), ':')) == Encode(BitsOfAll(bytes))
  {
    var s := Encode(BitsOfAll(bytes));
    EncodeShape(BitsOfAll(bytes));
    ChunksShape(s);
    ChunksParts(s);
    SplitJoin(Chunks(s), ':');
  }

  // Byte strings of one length have the same key id only when they are the same.
  lemma KeyIdInjective(a: seq<byte>, b: seq<byte>)
    requires |a| == |b| && KeyId(a) == KeyId(b)
    ensures a == b
  {
    if a != [] {
      KeyIdGroups(a);
      KeyIdGroups(b);
      EncodeInjective(BitsOfAll(a), BitsOfAll(b));
      BitsInjective(a, b);
    }
  }

  // Thirty bytes give 48 symbols in twelve groups of four.
  lemma KeyIdShape(bytes: seq<byte>)
    requires |bytes| == 30
    ensures |Encode(BitsOfAll(bytes))| == 48
    ensures |Split(KeyId(bytes), ':')| == 12 && forall p | p in Split(KeyId(bytes), ':') :: |p| == 4
    ensures Flat(Split(KeyId(bytes), ':')) == Encode(BitsOfAll(bytes))
  {
    KeyIdGroups(bytes);
    EncodeShape(BitsOfAll(bytes));
    ChunksShape(Encode(BitsOfAll(bytes)));
    ChunksParts(Encode(BitsOfAll(bytes)));
  }

  // ---- the same number --------------------------------------------------------------------

  // The bytes as the digits of a number in base 256.
  function Number256(bytes: seq<byte>): nat {
    if bytes == [] then 0 else 256 * Number256(bytes[..|bytes| - 1]) + bytes[|bytes| - 1] as nat
  }

  // The place of a symbol in section 6 of RFC 4648: A to Z are 0 to 25, 2 to 7 are 26 to 31.
  function Place(c: char): int {
    if 'A' <= c <= 'Z' then c as int - 'A' as int else 26 + c as int - '2' as int
  }

  // The symbols as the digits of a number in base 32.
  function Number32(s: string): int {
    if s == "" then 0 else 32 * Number32(s[..|s| - 1]) + Place(s[|s| - 1])
  }

  function Doubled(v: nat, n: nat): nat { if n == 0 then v else 2 * Doubled(v, n - 1) }

  lemma {:induction false} ValOfBits(a: Bits, x: nat, n: nat, bound: nat)
    requires BoundedBy(bound, n) && x < bound
    ensures Val(a + BitsOf(x, n)) == Doubled(Val(a), n) + x
  {
    if n == 0 {
      assert a + [] == a;
    } else {
      ValOfBits(a, x / 2, n - 1, bound / 2);
      var all := a + BitsOf(x, n);
      assert all[..|all| - 1] == a + BitsOf(x / 2, n - 1);
    }
  }

  lemma {:induction false} BitsAreTheNumber(bytes: seq<byte>)
    ensures Val(BitsOfAll(bytes)) == Number256(bytes)
  {
    if bytes != [] {
      var init, last := bytes[..|bytes| - 1], bytes[|bytes| - 1] as nat;
      BitsAreTheNumber(init);
      BoundEight();
      ValOfBits(BitsOfAll(init), last, 8, 256);
      DoubledEight(Val(BitsOfAll(init)));
    }
  }

  lemma DoubledEight(v: nat)
    ensures Doubled(v, 8) == 256 * v
  {
    assert Doubled(v, 1) == 2 * v;
    assert Doubled(v, 2) == 4 * v;
    assert Doubled(v, 4) == 16 * v;
    assert Doubled(v, 6) == 64 * v;
  }

  lemma ValOfGroup(a: Bits, group: Group)
    ensures Val(a + group) == 32 * Val(a) + Val(group)
  {
    ValOfMore(a, group);
    assert Doubled(Val(a), 1) == 2 * Val(a);
    assert Doubled(Val(a), 2) == 4 * Val(a);
    assert Doubled(Val(a), 4) == 16 * Val(a);
  }

  lemma {:induction false} ValOfMore(a: Bits, more: Bits)
    ensures Val(a + more) == Doubled(Val(a), |more|) + Val(more)
  {
    if more == [] {
      assert a + more == a;
    } else {
      var init := more[..|more| - 1];
      ValOfMore(a, init);
      assert (a + more)[..|a + more| - 1] == a + init;
    }
  }

  function NumberOf(groups: seq<Group>): nat {
    if groups == [] then 0 else 32 * NumberOf(groups[..|groups| - 1]) + Val(groups[|groups| - 1])
  }

  lemma PlaceOfSymbol(group: Group)
    ensures Place(Symbol(group)) == Val(group)
  {
    ValOfFive(group);
    AlphabetCode(Val(group));
  }

  lemma {:induction false} RenderedNumber(groups: seq<Group>)
    ensures Number32(Render(groups)) == NumberOf(groups)
  {
    if groups != [] {
      var init: seq<Group>, last: Group := groups[..|groups| - 1], groups[|groups| - 1];
      RenderedNumber(init);
      PlaceOfSymbol(last);
      assert Render(groups)[..|Render(groups)| - 1] == Render(init);
    }
  }

  lemma {:induction false} GroupedNumber(bits: Bits)
    requires |bits| % 5 == 0
    ensures NumberOf(Groups(bits)) == Val(bits)
    decreases |bits|
  {
    if bits != [] {
      var init: Bits, last: Group := bits[..|bits| - 5], bits[|bits| - 5..];
      GroupedNumber(init);
      GroupsAppend(init, last);
      assert bits == init + last && last[..5] == last && last[5..] == [];
      assert Groups(last) == [last];
      assert (Groups(init) + [last])[..|Groups(init)|] == Groups(init);
      ValOfGroup(init, last);
    }
  }

  // Filling up the last group with zeros changes nothing.
  lemma {:induction false} PaddedGroups(bits: Bits, n: nat)
    requires n < 5 && (|bits| + n) % 5 == 0
    ensures Groups(bits + Zeros(n)) == Groups(bits)
    decreases |bits|
  {
    var all := bits + Zeros(n);
    if n == 0 {
      assert all == bits;
    } else if |bits| < 5 {
      assert n == 5 - |bits| && all[..5] == all && all[5..] == [];
    } else {
      PaddedGroups(bits[5..], n);
      assert all[..5] == bits[..5] && all[5..] == bits[5..] + Zeros(n);
    }
  }

  lemma {:induction false} ValOfZeros(bits: Bits, n: nat)
    ensures Val(bits + Zeros(n)) == Doubled(Val(bits), n)
  {
    if n == 0 {
      assert bits + Zeros(0) == bits;
    } else {
      ValOfZeros(bits, n - 1);
      var all := bits + Zeros(n);
      assert all[..|all| - 1] == bits + Zeros(n - 1);
    }
  }

  lemma GroupsNumber(bits: Bits, padding: nat)
    requires padding < 5 && (|bits| + padding) % 5 == 0
    ensures NumberOf(Groups(bits)) == Doubled(Val(bits), padding)
  {
    PaddedGroups(bits, padding);
    GroupedNumber(bits + Zeros(padding));
    ValOfZeros(bits, padding);
  }

  // The encoding writes the bytes' number: read in base 32 by the standard's alphabet it is the bytes'
  // number in base 256, doubled once for each bit that fills up the last symbol.
  lemma EncodingIsTheNumber(bytes: seq<byte>, padding: nat)
    requires padding < 5 && (8 * |bytes| + padding) % 5 == 0
    ensures Number32(Encode(BitsOfAll(bytes))) == Doubled(Number256(bytes), padding)
  {
    GroupsNumber(BitsOfAll(bytes), padding);
    RenderedNumber(Groups(BitsOfAll(bytes)));
    BitsAreTheNumber(bytes);
  }
}
