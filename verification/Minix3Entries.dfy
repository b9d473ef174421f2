/** C strings (utils.c) and directory entries (minix3.h): an inode number and a name of at most 59 characters. */
module Minix3Entries {
  import opened Bytes
  import opened Minix3Slots

  const ENTRY_SIZE: nat := 64
  const NAME_LEN: nat := 60

  // ---- strings -------------------------------------------------------------

  /** What a C string says: the bytes before the first NUL. */
  function CStr(s: seq<byte>): (r: seq<byte>)
    ensures |r| <= |s| && (forall k :: 0 <= k < |r| ==> r[k] == s[k] != 0)
    ensures |r| < |s| ==> s[|r|] == 0
    ensures 0 in s <==> |r| < |s|
  {
    if s == [] || s[0] == 0 then [] else [s[0]] + CStr(s[1..])
  }

  /** mstrcmp, on the bytes from the two pointers on. */
  function Mstrcmp(a: seq<byte>, b: seq<byte>): int
    requires 0 in a && 0 in b
  {
    if a[0] == b[0] && a[0] == 0 then 0
    else if a[0] != b[0] then a[0] as int - b[0] as int
    else Mstrcmp(a[1..], b[1..])
  }

  /** samestr answers whether the two strings say the same. */
  lemma {:induction false} SameStr(a: seq<byte>, b: seq<byte>)
    requires 0 in a && 0 in b
    ensures Mstrcmp(a, b) == 0 <==> CStr(a) == CStr(b)
  {
    if a[0] == b[0] && a[0] != 0 {
      SameStr(a[1..], b[1..]);
      assert CStr(a) == [a[0]] + CStr(a[1..]) && CStr(b) == [b[0]] + CStr(b[1..]);
      assert CStr(a)[1..] == CStr(a[1..]) && CStr(b)[1..] == CStr(b[1..]);
    } else if a[0] != b[0] && a[0] != 0 && b[0] != 0 {
      assert CStr(a)[0] != CStr(b)[0];
    }
  }

  /** Where two strings differ first, mstrcmp is the difference of the bytes there. */
  lemma {:induction false} FirstDifference(a: seq<byte>, b: seq<byte>) returns (k: nat)
    requires 0 in a && 0 in b && Mstrcmp(a, b) != 0
    ensures k < |a| && k < |b| && a[..k] == b[..k] && 0 !in a[..k]
    ensures Mstrcmp(a, b) == a[k] as int - b[k] as int
  {
    if a[0] != b[0] {
      k := 0;
    } else {
      k := FirstDifference(a[1..], b[1..]);
      k := k + 1;
      assert a[..k] == [a[0]] + a[1..][..k - 1] && b[..k] == [b[0]] + b[1..][..k - 1];
    }
  }

  /** A string a caller can pass: no NUL before its end. */
  predicate IsString(s: seq<byte>)
  {
    0 !in s
  }

  lemma {:induction false} CStrOf(s: seq<byte>, rest: seq<byte>)
    requires IsString(s)
    ensures CStr(s + [0] + rest) == s
  {
    var t := s + [0] + rest;
    if s != [] {
      assert t[1..] == s[1..] + [0] + rest;
      CStrOf(s[1..], rest);
    }
  }

  /** mstrcpy: the string and its NUL land at `at`. */
  method Mstrcpy(dst: array<byte>, at: nat, src: seq<byte>)
    requires 0 in src && at + |CStr(src)| < dst.Length
    modifies dst
    ensures dst[..] == Splice(old(dst[..]), at, CStr(src) + [0])
    decreases |src|
  {
    dst[at] := src[0];
    if src[0] == 0 {
      return;
    } else {
      Mstrcpy(dst, at + 1, src[1..]);
    }
  }

  // ---- directory entries ---------------------------------------------------

  datatype Entry = Entry(ino: u32, name: seq<byte>)

  function DecodeEntry(b: seq<byte>): Entry
    requires |b| == ENTRY_SIZE
  {
    Entry(U32(b, 0), CStr(b[4..]))
  }

  predicate IsName(s: seq<byte>)
  {
    IsString(s) && |s| < NAME_LEN
  }

  /** A zeroed entry with the number and the name copied in. */
  function EncodeEntry(e: Entry): (b: seq<byte>)
    requires IsName(e.name)
    ensures |b| == ENTRY_SIZE
  {
    Put32(e.ino) + e.name + Zeros(NAME_LEN - |e.name|)
  }

  lemma EntryRoundTrip(e: Entry)
    requires IsName(e.name)
    ensures DecodeEntry(EncodeEntry(e)) == e
  {
    var b, rest := EncodeEntry(e), Zeros(NAME_LEN - |e.name| - 1);
    assert U32(Put32(e.ino), 0) == e.ino;
    assert b[4..] == e.name + [0] + rest;
    CStrOf(e.name, rest);
  }

  /** Building an entry in a buffer the way touch and mkdir do. */
  method NewEntry(ino: u32, name: seq<byte>) returns (buffer: array<byte>)
    requires IsName(name)
    ensures fresh(buffer) && buffer[..] == EncodeEntry(Entry(ino, name))
  {
    buffer := new byte[ENTRY_SIZE](_ => 0);
    PutIno(buffer, 0, ino);
    CStrOf(name, []);
    assert name + [0] + [] == name + [0];
    Mstrcpy(buffer, 4, name + [0]);
  }

  /** dirs[j].inode_num = ino, where entry j starts at `at`. */
  method PutIno(buffer: array<byte>, at: nat, ino: u32)
    requires at + 4 <= buffer.Length
    modifies buffer
    ensures buffer[..] == Splice(old(buffer[..]), at, Put32(ino))
  {
    var b := Put32(ino);
    buffer[at], buffer[at + 1], buffer[at + 2], buffer[at + 3] := b[0], b[1], b[2], b[3];
  }

  /** Overwriting the number keeps the name. */
  lemma RenumberEntry(b: seq<byte>, ino: u32)
    requires |b| == ENTRY_SIZE
    ensures DecodeEntry(Splice(b, 0, Put32(ino))) == DecodeEntry(b).(ino := ino)
  {
    var r := Splice(b, 0, Put32(ino));
    assert r[4..] == b[4..];
    assert U32(Put32(ino), 0) == ino;
  }

  /** The entries a directory's bytes hold. */
  function Entries(c: seq<byte>): (es: seq<Entry>)
    ensures |es| == |c| / ENTRY_SIZE
  {
    seq(|c| / ENTRY_SIZE, x requires 0 <= x < |c| / ENTRY_SIZE => DecodeEntry(c[ENTRY_SIZE * x..ENTRY_SIZE * x + ENTRY_SIZE]))
  }

  /** The struct mx3_dir_entry: its number, the lowest byte first, and the bytes of its name up to a NUL or the end. */
  lemma EntryBytes(c: seq<byte>, x: nat)
    requires 64 * x + 64 <= |c|
    ensures x < |Entries(c)| && Entries(c)[x].ino == U32(c, 64 * x)
    ensures var name := Entries(c)[x].name;
            && |name| <= 60 && (|name| < 60 ==> c[64 * x + 4 + |name|] == 0)
            && forall k :: 0 <= k < |name| ==> name[k] == c[64 * x + 4 + k] != 0
  {
    var b := c[64 * x..64 * x + 64];
    assert Entries(c)[x] == DecodeEntry(b);
    var name := CStr(b[4..]);
    forall k | 0 <= k < |name| ensures name[k] == c[64 * x + 4 + k] != 0 {
      assert b[4..][k] == c[64 * x + 4 + k];
    }
  }

  lemma EntriesAppend(c: seq<byte>, b: seq<byte>)
    requires |c| % ENTRY_SIZE == 0 && |b| == ENTRY_SIZE
    ensures Entries(c + b) == Entries(c) + [DecodeEntry(b)]
  {
    var n := |c| / ENTRY_SIZE;
    forall x | 0 <= x <= n ensures Entries(c + b)[x] == if x < n then Entries(c)[x] else DecodeEntry(b) {
      if x < n {
        assert (c + b)[ENTRY_SIZE * x..ENTRY_SIZE * x + ENTRY_SIZE] == c[ENTRY_SIZE * x..ENTRY_SIZE * x + ENTRY_SIZE];
      } else {
        assert (c + b)[ENTRY_SIZE * x..ENTRY_SIZE * x + ENTRY_SIZE] == b;
      }
    }
  }

  lemma EntriesSplice(c: seq<byte>, x: nat, b: seq<byte>)
    requires x < |c| / ENTRY_SIZE && |b| == ENTRY_SIZE
    ensures Entries(Splice(c, ENTRY_SIZE * x, b)) == Entries(c)[x := DecodeEntry(b)]
  {
    var r := Splice(c, ENTRY_SIZE * x, b);
    forall y | 0 <= y < |c| / ENTRY_SIZE ensures Entries(r)[y] == if y == x then DecodeEntry(b) else Entries(c)[y] {
      if y == x {
        assert r[ENTRY_SIZE * y..ENTRY_SIZE * y + ENTRY_SIZE] == b;
      } else {
        assert r[ENTRY_SIZE * y..ENTRY_SIZE * y + ENTRY_SIZE] == c[ENTRY_SIZE * y..ENTRY_SIZE * y + ENTRY_SIZE];
      }
    }
  }

  lemma EntryAt(c: seq<byte>, x: nat)
    requires x < |c| / ENTRY_SIZE
    ensures Entries(c)[x] == DecodeEntry(c[ENTRY_SIZE * x..ENTRY_SIZE * x + ENTRY_SIZE])
  {
  }
}
