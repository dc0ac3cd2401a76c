/**
 * The signature scanner: the `FILE_SIGNATURES` table in its declaration
 * order and `find_signature`, which reports the first table entry that
 * occurs anywhere in the data, with the offset of its first occurrence.
 */
module Signatures {
  import opened Binary
  import opened Wrappers

  /** The file-type tags of the table; GIF87a and GIF89a share `Gif`. */
  datatype FileType = Png | Jpg | Pdf | Zip | Gif | Bmp | Wav | Mp3 | SevenZip | Rar

  datatype Signature = Signature(magic: seq<Byte>, fileType: FileType)

  /** The PNG file signature (section 5.2 of ISO/IEC 15948): 89 'P' 'N' 'G' CR LF SUB LF. */
  const PngMagic: seq<Byte> := [0x89, 0x50, 0x4E, 0x47, 0x0D, 0x0A, 0x1A, 0x0A]

  /** A ZIP local file header: 'P' 'K' 03 04. */
  const ZipMagic: seq<Byte> := [0x50, 0x4B, 0x03, 0x04]

  /** The table, in declaration order; order decides which type wins. */
  const Table: seq<Signature> := [
    Signature(PngMagic, Png),
    Signature([0xFF, 0xD8, 0xFF], Jpg),                         // SOI + first marker byte
    Signature([0x25, 0x50, 0x44, 0x46, 0x2D], Pdf),             // "%PDF-"
    Signature(ZipMagic, Zip),
    Signature([0x47, 0x49, 0x46, 0x38, 0x37, 0x61], Gif),       // "GIF87a"
    Signature([0x47, 0x49, 0x46, 0x38, 0x39, 0x61], Gif),       // "GIF89a"
    Signature([0x42, 0x4D], Bmp),                               // "BM"
    Signature([0x52, 0x49, 0x46, 0x46], Wav),                   // "RIFF"
    Signature([0x49, 0x44, 0x33], Mp3),                         // "ID3"
    Signature([0x37, 0x7A, 0xBC, 0xAF, 0x27, 0x1C], SevenZip),  // "7z" BC AF 27 1C
    Signature([0x52, 0x61, 0x72, 0x21, 0x1A, 0x07], Rar)        // "Rar!" 1A 07
  ]

  /** Every pattern of the table has at least two bytes. */
  lemma PatternNonEmpty(e: nat)
    requires e < |Table|
    ensures |Table[e].magic| >= 2
  {
  }

  predicate OccursAt(data: seq<Byte>, pattern: seq<Byte>, i: nat)
  {
    i + |pattern| <= |data| && data[i..i + |pattern|] == pattern
  }

  predicate Occurs(data: seq<Byte>, pattern: seq<Byte>)
  {
    exists i: nat :: i <= |data| && OccursAt(data, pattern, i)
  }

  /**
   * `data.find(pattern, start)`: the first index at or after start where
   * pattern occurs, or None where Python returns -1.
   */
  function Find(data: seq<Byte>, pattern: seq<Byte>, start: nat): (r: Option<nat>)
    ensures r.Some? ==> start <= r.value && OccursAt(data, pattern, r.value)
    ensures r.Some? ==> forall i: nat :: start <= i < r.value ==> !OccursAt(data, pattern, i)
    ensures r.None? ==> forall i: nat :: start <= i ==> !OccursAt(data, pattern, i)
    decreases |data| + 1 - start
  {
    if start + |pattern| > |data| then None
    else if OccursAt(data, pattern, start) then Some(start)
    else Find(data, pattern, start + 1)
  }

  /** What `find_signature` reports: the tag and the start offset. */
  datatype Match = Match(fileType: FileType, start: nat)

  /**
   * Entry e of the table is the one reported as m: it occurs first at
   * m.start, and no entry from `from` up to e occurs anywhere.
   */
  predicate FirstHit(data: seq<Byte>, from: nat, e: nat, m: Match)
    requires e < |Table|
  {
    && m.fileType == Table[e].fileType
    && OccursAt(data, Table[e].magic, m.start)
    && (forall i: nat :: i < m.start ==> !OccursAt(data, Table[e].magic, i))
    && (forall d :: from <= d < e ==> !Occurs(data, Table[d].magic))
  }

  /** Entry k is found: it is the first hit from k on, at its first offset. */
  lemma HitHere(data: seq<Byte>, k: nat)
    requires k < |Table| && Find(data, Table[k].magic, 0).Some?
    ensures FirstHit(data, k, k, Match(Table[k].fileType, Find(data, Table[k].magic, 0).value))
  {
  }

  /** Entry k is not found: it occurs nowhere. */
  lemma MissHere(data: seq<Byte>, k: nat)
    requires k < |Table| && Find(data, Table[k].magic, 0).None?
    ensures !Occurs(data, Table[k].magic)
  {
  }

  /** A first hit from k+1 on is a first hit from k on when entry k occurs nowhere. */
  lemma HitLater(data: seq<Byte>, k: nat, e: nat, m: Match)
    requires k < e < |Table| && !Occurs(data, Table[k].magic)
    requires FirstHit(data, k + 1, e, m)
    ensures FirstHit(data, k, e, m)
  {
  }

  /** The scan from table entry k on. */
  function ScanFrom(data: seq<Byte>, k: nat): (r: Option<Match>)
    requires k <= |Table|
    ensures r.Some? ==> exists e :: k <= e < |Table| && FirstHit(data, k, e, r.value)
    ensures r.None? ==> forall e :: k <= e < |Table| ==> !Occurs(data, Table[e].magic)
    decreases |Table| - k
  {
    if k == |Table| then None
    else
      match Find(data, Table[k].magic, 0)
      case Some(i) =>
        HitHere(data, k);
        Some(Match(Table[k].fileType, i))
      case None =>
        MissHere(data, k);
        var r := ScanFrom(data, k + 1);
        if r.Some? then
          var e :| k + 1 <= e < |Table| && FirstHit(data, k + 1, e, r.value);
          HitLater(data, k, e, r.value);
          r
        else
          r
  }

  /**
   * `find_signature`: Some(m) exactly when a table entry is the first
   * that occurs anywhere and m is its tag and first offset; None when no
   * entry occurs anywhere.
   */
  function Scan(data: seq<Byte>): (r: Option<Match>)
    ensures r.Some? ==> exists e :: 0 <= e < |Table| && FirstHit(data, 0, e, r.value)
    ensures r.None? <==> forall e :: 0 <= e < |Table| ==> !Occurs(data, Table[e].magic)
  {
    var r := ScanFrom(data, 0);
    if r.Some? then
      var e :| 0 <= e < |Table| && FirstHit(data, 0, e, r.value);
      assert Occurs(data, Table[e].magic) by {
        assert OccursAt(data, Table[e].magic, r.value.start);
      }
      r
    else
      r
  }

  method FindSignature(data: seq<Byte>) returns (r: Option<Match>)
    ensures r == Scan(data)
  {
    for k := 0 to |Table|
      invariant ScanFrom(data, k) == Scan(data)
    {
      var index := Find(data, Table[k].magic, 0);
      if index.Some? {
        return Some(Match(Table[k].fileType, index.value));
      }
    }
    return None;
  }

  /** Table order beats offset: any occurrence of entry e makes the scan report e or an earlier entry. */
  lemma TableOrderWins(data: seq<Byte>, e: nat, i: nat)
    requires e < |Table| && OccursAt(data, Table[e].magic, i)
    ensures Scan(data).Some?
    ensures exists d :: 0 <= d <= e && FirstHit(data, 0, d, Scan(data).value)
  {
    assert Occurs(data, Table[e].magic);
    var m := Scan(data).value;
    var d :| 0 <= d < |Table| && FirstHit(data, 0, d, m);
    assert forall d' :: 0 <= d' < d ==> !Occurs(data, Table[d'].magic);
    assert d <= e;
  }

  /** Any PNG signature in the data makes the scan report PNG at its first occurrence. */
  lemma PngFirst(data: seq<Byte>, i: nat)
    requires OccursAt(data, PngMagic, i)
    ensures Find(data, PngMagic, 0).Some?
    ensures Scan(data) == Some(Match(Png, Find(data, PngMagic, 0).value))
  {
    TableOrderWins(data, 0, i);
    var f := Find(data, PngMagic, 0);
    var m := Scan(data).value;
    var d :| 0 <= d <= 0 && FirstHit(data, 0, d, m);
    assert OccursAt(data, PngMagic, m.start) && OccursAt(data, PngMagic, f.value);
    assert forall i: nat :: i < m.start ==> !OccursAt(data, PngMagic, i);
  }

  /** PNG beats ZIP even where the ZIP header comes first. */
  lemma PngBeatsEarlierZip(data: seq<Byte>, z: nat, p: nat)
    requires OccursAt(data, ZipMagic, z) && OccursAt(data, PngMagic, p) && z < p
    ensures Scan(data).Some? && Scan(data).value.fileType == Png
  {
    PngFirst(data, p);
  }
}
