/**
 The byte-level moves of a page edit (v4/go/internal/format/put.go): copying inside the
 page, clearing, and little-endian 16-bit fields.
 */
module SlottedBytes {

  type Byte = x: int | 0 <= x < 256

  type Bytes = seq<Byte>

  function U16(s: Bytes, at: nat): (v: nat)
    requires at + 2 <= |s|
    ensures v < 0x10000
  {
    s[at] as int + 256 * (s[at + 1] as int)
  }

  function PutU16(s: Bytes, at: nat, v: nat): (r: Bytes)
    requires at + 2 <= |s| && v < 0x10000
    ensures |r| == |s| && U16(r, at) == v
  {
    s[at := v % 256][at + 1 := v / 256]
  }

  /** `len` bytes from `src` copied to `dst`; the areas may overlap. */
  function Moved(s: Bytes, dst: nat, src: nat, len: nat): (r: Bytes)
    requires dst + len <= |s| && src + len <= |s|
    ensures |r| == |s|
  {
    s[..dst] + s[src..src + len] + s[dst + len..]
  }

  function Written(s: Bytes, dst: nat, cell: Bytes): (r: Bytes)
    requires dst + |cell| <= |s|
    ensures |r| == |s|
  {
    s[..dst] + cell + s[dst + |cell|..]
  }

  function Cleared(s: Bytes, lo: nat, hi: nat): (r: Bytes)
    requires lo <= hi <= |s|
    ensures |r| == |s|
  {
    s[..lo] + seq(hi - lo, _ => 0) + s[hi..]
  }

  lemma PutAt(s: Bytes, at: nat, v: nat)
    requires at + 2 <= |s| && v < 0x10000
    ensures forall i {:trigger PutU16(s, at, v)[i]} :: 0 <= i < |s| && i != at && i != at + 1 ==> PutU16(s, at, v)[i] == s[i]
  {
  }

  lemma MovedAt(s: Bytes, dst: nat, src: nat, len: nat)
    requires dst + len <= |s| && src + len <= |s|
    ensures forall i {:trigger Moved(s, dst, src, len)[i]} :: 0 <= i < |s| ==>
      Moved(s, dst, src, len)[i] == if dst <= i < dst + len then s[src + (i - dst)] else s[i]
  {
  }

  lemma WrittenAt(s: Bytes, dst: nat, cell: Bytes)
    requires dst + |cell| <= |s|
    ensures forall i {:trigger Written(s, dst, cell)[i]} :: 0 <= i < |s| ==>
      Written(s, dst, cell)[i] == if dst <= i < dst + |cell| then cell[i - dst] else s[i]
  {
  }

  lemma ClearedAt(s: Bytes, lo: nat, hi: nat)
    requires lo <= hi <= |s|
    ensures forall i {:trigger Cleared(s, lo, hi)[i]} :: 0 <= i < |s| ==> Cleared(s, lo, hi)[i] == if lo <= i < hi then 0 else s[i]
  {
  }

  // ----- the same on the mapped page

  method CopyWithin(page: array<Byte>, dst: nat, src: nat, len: nat)
    requires dst + len <= page.Length && src + len <= page.Length
    modifies page
    ensures page[..] == Moved(old(page[..]), dst, src, len)
    ensures forall i :: 0 <= i < page.Length ==> page[i] == if dst <= i < dst + len then old(page[src + (i - dst)]) else old(page[i])
  {
    forall i | 0 <= i < len {
      page[dst + i] := page[src + i];
    }
    forall i | 0 <= i < page.Length
      ensures page[i] == Moved(old(page[..]), dst, src, len)[i]
    {
      if dst <= i < dst + len {
        assert page[dst + (i - dst)] == old(page[..])[src + (i - dst)];
      }
    }
  }

  method CopyIn(page: array<Byte>, dst: nat, cell: Bytes)
    requires dst + |cell| <= page.Length
    modifies page
    ensures page[..] == Written(old(page[..]), dst, cell)
  {
    forall i | 0 <= i < |cell| {
      page[dst + i] := cell[i];
    }
    forall i | 0 <= i < page.Length
      ensures page[i] == Written(old(page[..]), dst, cell)[i]
    {
      if dst <= i < dst + |cell| {
        assert page[dst + (i - dst)] == cell[i - dst];
      }
    }
  }

  method Clear(page: array<Byte>, lo: nat, hi: nat)
    requires lo <= hi <= page.Length
    modifies page
    ensures page[..] == Cleared(old(page[..]), lo, hi)
  {
    forall i | lo <= i < hi {
      page[i] := 0;
    }
  }

  method Store(page: array<Byte>, at: nat, v: nat)
    requires at + 2 <= page.Length && v < 0x10000
    modifies page
    ensures page[..] == PutU16(old(page[..]), at, v) && page[at] == v % 256 && page[at + 1] == v / 256
  {
    page[at] := v % 256;
    page[at + 1] := v / 256;
  }

  method Load(page: array<Byte>, at: nat) returns (v: nat)
    requires at + 2 <= page.Length
    ensures v == U16(page[..], at)
  {
    v := page[at] as int + 256 * (page[at + 1] as int);
  }

  /** Bytes that agree read the same. */
  lemma SameU16(s: Bytes, t: Bytes, at: nat, from: nat)
    requires at + 2 <= |s| && from + 2 <= |t| && s[at] == t[from] && s[at + 1] == t[from + 1]
    ensures U16(s, at) == U16(t, from)
  {
  }
}
