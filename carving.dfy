/**
 * The carving rule of the search: the payload starts at the detected
 * signature; for JPEG it ends right after the first end-of-image marker at
 * or after the start, otherwise (and when there is no marker) it runs to
 * the end of the data.
 */
module Carving {
  import opened Binary
  import opened Wrappers
  import opened Signatures

  /** The JPEG end-of-image marker EOI, FF D9 (ITU-T T.81, Table B.1). */
  const EndOfImage: seq<Byte> := [0xFF, 0xD9]

  /** The slice `hidden_data[start : end]` saved for a match of fileType at start. */
  function Carve(data: seq<Byte>, fileType: FileType, start: nat): (payload: seq<Byte>)
    requires start <= |data|
    ensures start + |payload| <= |data| && payload == data[start..start + |payload|]
    ensures fileType != Jpg ==> payload == data[start..]
    ensures (forall e: nat :: start <= e ==> !OccursAt(data, EndOfImage, e)) ==> payload == data[start..]
  {
    if fileType == Jpg then
      match Find(data, EndOfImage, start)
      case Some(e) => data[start..e + |EndOfImage|]
      case None => data[start..]
    else
      data[start..]
  }

  /**
   * A JPEG payload cut at a marker ends with FF D9 and contains no other
   * FF D9: the cut is at the first marker at or after the start.
   */
  lemma JpgCutAtFirstMarker(data: seq<Byte>, start: nat, e: nat)
    requires start <= e && OccursAt(data, EndOfImage, e)
    ensures var payload := Carve(data, Jpg, start);
      && |payload| >= 2
      && payload[|payload| - 2..] == EndOfImage
      && forall i: nat :: i + 2 < |payload| ==> !OccursAt(payload, EndOfImage, i)
  {
    var f := Find(data, EndOfImage, start);
    assert f.Some?;
    var payload := Carve(data, Jpg, start);
    assert payload == data[start..f.value + 2];
    forall i: nat | i + 2 < |payload|
      ensures !OccursAt(payload, EndOfImage, i)
    {
      assert payload[i] == data[start + i] && payload[i + 1] == data[start + i + 1];
      assert payload[i..i + 2] == data[start + i..start + i + 2];
      assert !OccursAt(data, EndOfImage, start + i);
    }
  }
}
