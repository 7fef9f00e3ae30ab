/** Bytes, 32-bit words, and the flat little-endian byte memory every access path is compared with. */
module Bytes {

  const MEM_SIZE := 0x1_0000_0000

  type byte = b: int | 0 <= b < 256
  type word = w: int | 0 <= w < 0x1_0000_0000

  datatype Option<+T> = None | Some(value: T)

  /** Byte lane `i` of a little-endian word. */
  function Lane(w: word, i: nat): byte
    requires i < 4
  {
    if i == 0 then w % 0x100
    else if i == 1 then w / 0x100 % 0x100
    else if i == 2 then w / 0x1_0000 % 0x100
    else w / 0x100_0000
  }

  function WordOf(b0: byte, b1: byte, b2: byte, b3: byte): word {
    b0 + 0x100 * b1 + 0x1_0000 * b2 + 0x100_0000 * b3
  }

  lemma LanesOfWord(b0: byte, b1: byte, b2: byte, b3: byte)
    ensures var w := WordOf(b0, b1, b2, b3);
            Lane(w, 0) == b0 && Lane(w, 1) == b1 && Lane(w, 2) == b2 && Lane(w, 3) == b3
  {
    var q1 := b1 + 0x100 * b2 + 0x1_0000 * b3;
    var q2 := b2 + 0x100 * b3;
    var w := WordOf(b0, b1, b2, b3);
    assert w == 0x100 * q1 + b0 && q1 == 0x100 * q2 + b1;
    assert w / 0x100 == q1 && w % 0x100 == b0;
    assert q1 / 0x100 == q2 && q1 % 0x100 == b1;
    assert w / 0x1_0000 == q2 && w / 0x100_0000 == q2 / 0x100;
  }

  lemma WordOfLanes(w: word)
    ensures WordOf(Lane(w, 0), Lane(w, 1), Lane(w, 2), Lane(w, 3)) == w
  {
    var q1 := w / 0x100;
    var q2 := q1 / 0x100;
    assert w == 0x100 * q1 + w % 0x100;
    assert q1 == 0x100 * q2 + q1 % 0x100;
    assert w / 0x1_0000 == q2;
    assert w / 0x100_0000 == q2 / 0x100;
    assert q2 == 0x100 * (q2 / 0x100) + q2 % 0x100;
  }

  /** `count` consecutive lanes of a word, starting at lane `from`. */
  function Lanes(w: word, from: nat, count: nat): (bs: seq<byte>)
    requires from + count <= 4
  {
    seq<byte>(count, i requires 0 <= i < count => Lane(w, from + i))
  }

  // ---- Word lists and byte lists ----

  /** The bytes of a list of words, least significant byte first. */
  function Unpacked(ws: seq<word>): (bs: seq<byte>)
    ensures |bs| == 4 * |ws|
  {
    if ws == [] then [] else Lanes(ws[0], 0, 4) + Unpacked(ws[1..])
  }

  lemma {:induction false} UnpackedAppend(a: seq<word>, b: seq<word>)
    ensures Unpacked(a + b) == Unpacked(a) + Unpacked(b)
  {
    if a == [] {
      assert a + b == b;
    } else {
      UnpackedAppend(a[1..], b);
      assert (a + b)[1..] == a[1..] + b;
      assert Unpacked(a + b) == Lanes(a[0], 0, 4) + (Unpacked(a[1..]) + Unpacked(b));
    }
  }

  /** Byte `k` of the unpacked list is lane k%4 of word k/4. */
  lemma {:induction false} UnpackedAt(ws: seq<word>, k: nat)
    requires k < 4 * |ws|
    ensures Unpacked(ws)[k] == Lane(ws[k / 4], k % 4)
  {
    if k >= 4 {
      UnpackedAt(ws[1..], k - 4);
      assert Unpacked(ws)[k] == Unpacked(ws[1..])[k - 4];
    }
  }

  /** Two word lists with the same bytes are the same list. */
  lemma {:induction false} UnpackedInjective(a: seq<word>, b: seq<word>)
    requires Unpacked(a) == Unpacked(b)
    ensures a == b
  {
    assert |a| == |b|;
    forall i | 0 <= i < |a|
      ensures a[i] == b[i]
    {
      forall l | 0 <= l < 4
        ensures Lane(a[i], l) == Lane(b[i], l)
      {
        UnpackedAt(a, 4 * i + l);
        UnpackedAt(b, 4 * i + l);
      }
      WordOfLanes(a[i]);
      WordOfLanes(b[i]);
    }
  }

  lemma UnpackedOne(w: word)
    ensures Unpacked([w]) == [Lane(w, 0), Lane(w, 1), Lane(w, 2), Lane(w, 3)]
  {
    assert [w][1..] == [];
    assert Unpacked([w]) == Lanes(w, 0, 4) + [];
  }

  method U32leListToByteList(data: seq<word>) returns (res: seq<byte>)
    ensures res == Unpacked(data)
  {
    hide Unpacked;
    res := [];
    UnpackedNone();
    for i := 0 to |data|
      invariant res == Unpacked(data[..i])
    {
      var x := data[i];
      UnpackedAppend(data[..i], [x]);
      UnpackedOne(x);
      assert data[..i + 1] == data[..i] + [x];
      res := res + [x % 0x100, x / 0x100 % 0x100, x / 0x1_0000 % 0x100, x / 0x100_0000 % 0x100];
    }
    assert data[..|data|] == data;
  }

  lemma UnpackedNone()
    ensures Unpacked([]) == []
  {
  }

  /** Packs bytes into words; a ragged tail is filled with `pad`, as the source does by one recursive call. */
  method ByteListToU32leList(data: seq<byte>, pad: byte) returns (res: seq<word>)
    ensures |res| == (|data| + 3) / 4
    ensures Unpacked(res) == data + seq(4 * |res| - |data|, _ => pad)
    decreases |data| % 4
  {
    hide Unpacked;
    res := [];
    UnpackedNone();
    for i := 0 to |data| / 4
      invariant |res| == i
      invariant Unpacked(res) == data[..4 * i]
    {
      var w := WordOf(data[4 * i], data[4 * i + 1], data[4 * i + 2], data[4 * i + 3]);
      LanesOfWord(data[4 * i], data[4 * i + 1], data[4 * i + 2], data[4 * i + 3]);
      UnpackedAppend(res, [w]);
      UnpackedOne(w);
      assert Unpacked([w]) == data[4 * i..4 * i + 4];
      assert data[..4 * i + 4] == data[..4 * i] + data[4 * i..4 * i + 4];
      res := res + [w];
    }
    var remainder := |data| % 4;
    if remainder != 0 {
      var padCount := 4 - remainder;
      var padded := data[|data| - remainder..] + seq(padCount, _ => pad);
      var tail := ByteListToU32leList(padded, pad);
      UnpackedAppend(res, tail);
      assert data == data[..4 * (|data| / 4)] + data[|data| - remainder..];
      res := res + tail;
    }
  }

  // ---- Flat memory ----

  /** The flat update: `data` stored at `addr`, everything else as before. */
  function Update(mem: seq<byte>, addr: int, data: seq<byte>): (r: seq<byte>)
    requires 0 <= addr && addr + |data| <= |mem|
    ensures |r| == |mem|
  {
    mem[..addr] + data + mem[addr + |data|..]
  }

  /** A write of `data` that stopped part way: some first bytes of it arrived, nothing else changed. */
  ghost predicate Torn(m: seq<byte>, m': seq<byte>, addr: int, data: seq<byte>)
    requires 0 <= addr && addr + |data| <= |m|
  {
    exists k :: 0 <= k <= |data| && m' == Update(m, addr, data[..k])
  }

  /** The same for words, which arrive whole. */
  ghost predicate TornWords(m: seq<byte>, m': seq<byte>, addr: int, ws: seq<word>)
    requires 0 <= addr && addr + 4 * |ws| <= |m|
  {
    exists k :: 0 <= k <= |ws| && m' == Update(m, addr, Unpacked(ws[..k]))
  }

  lemma UpdateAt(mem: seq<byte>, addr: int, data: seq<byte>, a: int)
    requires 0 <= addr && addr + |data| <= |mem|
    requires 0 <= a < |mem|
    ensures Update(mem, addr, data)[a] == if addr <= a < addr + |data| then data[a - addr] else mem[a]
  {
  }

  lemma UpdateNothing(mem: seq<byte>, addr: int)
    requires 0 <= addr <= |mem|
    ensures Update(mem, addr, []) == mem
  {
  }

  /** Two adjacent updates are one. */
  lemma UpdateConcat(mem: seq<byte>, addr: int, d: seq<byte>, e: seq<byte>)
    requires 0 <= addr && addr + |d| + |e| <= |mem|
    ensures Update(Update(mem, addr, d), addr + |d|, e) == Update(mem, addr, d + e)
  {
    var m1 := Update(mem, addr, d);
    assert m1[..addr + |d|] == mem[..addr] + d;
    assert m1[addr + |d| + |e|..] == mem[addr + |d| + |e|..];
  }

  /** Nothing arrived. */
  lemma TornAtStart(m: seq<byte>, addr: int, data: seq<byte>)
    requires 0 <= addr && addr + |data| <= |m|
    ensures Torn(m, m, addr, data)
  {
    assert data[..0] == [];
    UpdateNothing(m, addr);
  }

  lemma TornWordsAfter(m: seq<byte>, addr: int, ws: seq<word>, k: nat)
    requires 0 <= addr && addr + 4 * |ws| <= |m| && k <= |ws|
    ensures TornWords(m, Update(m, addr, Unpacked(ws[..k])), addr, ws)
  {
  }

  lemma TornWordsAtStart(m: seq<byte>, addr: int, ws: seq<word>)
    requires 0 <= addr && addr + 4 * |ws| <= |m|
    ensures TornWords(m, m, addr, ws)
  {
    assert ws[..0] == [];
    UpdateNothing(m, addr);
  }

  /** A torn write after `idx` whole bytes is a torn write of the larger block. */
  lemma TornLater(m: seq<byte>, now: seq<byte>, addr: int, data: seq<byte>, idx: nat, n: nat)
    requires 0 <= addr && addr + |data| <= |m| && idx + n <= |data|
    requires Torn(Update(m, addr, data[..idx]), now, addr + idx, data[idx..idx + n])
    ensures Torn(m, now, addr, data)
  {
    var piece := data[idx..idx + n];
    var k :| 0 <= k <= n && now == Update(Update(m, addr, data[..idx]), addr + idx, piece[..k]);
    UpdateConcat(m, addr, data[..idx], piece[..k]);
    assert data[..idx + k] == data[..idx] + piece[..k];
  }

  /** The same for words. */
  lemma TornWordsLater(m: seq<byte>, now: seq<byte>, addr: int, ws: seq<word>, done: nat, n: nat)
    requires 0 <= addr && addr + 4 * |ws| <= |m| && done + n <= |ws|
    requires TornWords(Update(m, addr, Unpacked(ws[..done])), now, addr + 4 * done, ws[done..done + n])
    ensures TornWords(m, now, addr, ws)
  {
    hide Unpacked;
    var piece := ws[done..done + n];
    var k :| 0 <= k <= n && now == Update(Update(m, addr, Unpacked(ws[..done])), addr + 4 * done, Unpacked(piece[..k]));
    UpdateConcat(m, addr, Unpacked(ws[..done]), Unpacked(piece[..k]));
    UnpackedAppend(ws[..done], piece[..k]);
    assert ws[..done + k] == ws[..done] + piece[..k];
  }

  /** Whole words that arrived are first bytes that arrived. */
  lemma TornWordsAreTorn(m: seq<byte>, now: seq<byte>, addr: int, ws: seq<word>)
    requires 0 <= addr && addr + 4 * |ws| <= |m| && TornWords(m, now, addr, ws)
    ensures Torn(m, now, addr, Unpacked(ws))
  {
    hide Unpacked;
    var k :| 0 <= k <= |ws| && now == Update(m, addr, Unpacked(ws[..k]));
    UnpackedAppend(ws[..k], ws[k..]);
    assert ws == ws[..k] + ws[k..];
    assert Unpacked(ws)[..4 * k] == Unpacked(ws[..k]);
  }

  lemma SliceConcat(mem: seq<byte>, a: int, b: int, c: int)
    requires 0 <= a <= b <= c <= |mem|
    ensures mem[a..b] + mem[b..c] == mem[a..c]
  {
  }
}
