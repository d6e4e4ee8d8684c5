/** Finding the metadata: just behind the last marker in the last 128 KiB of the file. */
module Metadata {
  import opened Bytes

  const METADATA_BLOCK_MAX_SIZE := 131072

  /** `"\xab\xcd\xefMaxMind.com"` */
  const METADATA_MARKER: seq<Byte> := [0xab, 0xcd, 0xef, 77, 97, 120, 77, 105, 110, 100, 46, 99, 111, 109]

  ghost predicate OccursAt(l: seq<Byte>, s: seq<Byte>, i: int) {
    0 <= i && i + |s| <= |l| && l[i..i + |s|] == s
  }

  /** `mmdb_memmem`: the first occurrence of `s` in `l`. */
  method Memmem(l: seq<Byte>, s: seq<Byte>) returns (at: Option<nat>)
    ensures s == [] ==> at == None
    ensures s != [] ==>
      match at
      case None => forall i :: !OccursAt(l, s, i)
      case Some(first) => OccursAt(l, s, first) && forall i :: i < first ==> !OccursAt(l, s, i)
  {
    if |l| == 0 || |s| == 0 {
      return None;
    }
    if |l| < |s| {
      return None;
    }
    var last := |l| - |s|;
    var cur := 0;
    while cur <= last
      invariant 0 <= cur <= last + 1
      invariant forall i :: i < cur ==> !OccursAt(l, s, i)
    {
      // the first byte is compared on its own before the rest
      if l[cur] == s[0] && l[cur..cur + |s|] == s {
        return Some(cur);
      }
      assert OccursAt(l, s, cur) ==> l[cur..cur + |s|][0] == s[0];
      cur := cur + 1;
    }
    return None;
  }

  /** The first byte is not among the others, so occurrences cannot overlap. */
  ghost predicate FirstByteUnique(s: seq<Byte>) {
    |s| > 1 && forall k :: 0 < k < |s| ==> s[k] != s[0]
  }

  lemma OccurrencesApart(l: seq<Byte>, s: seq<Byte>, i: int, j: int)
    requires FirstByteUnique(s) && OccursAt(l, s, i) && OccursAt(l, s, j) && i < j
    ensures i + |s| <= j
  {
    if j < i + |s| {
      ByteOf(l, s, i, j - i);
      ByteOf(l, s, j, 0);
    }
  }

  lemma ByteOf(l: seq<Byte>, s: seq<Byte>, i: int, k: int)
    requires OccursAt(l, s, i) && 0 <= k < |s|
    ensures l[i + k] == s[k]
  {
    assert l[i..i + |s|][k] == l[i + k];
  }

  /** Occurrences in the rest of a file. */
  lemma OccursInRest(l: seq<Byte>, s: seq<Byte>, from: nat, i: int)
    requires from <= |l| && i >= from
    ensures OccursAt(l[from..], s, i - from) <==> OccursAt(l, s, i)
  {
    if i + |s| <= |l| {
      assert l[from..][i - from..i - from + |s|] == l[i..i + |s|];
    }
  }

  /** `find_metadata`: where the metadata starts in the file and how long it is. */
  method FindMetadata(file: seq<Byte>) returns (r: Option<(nat, nat)>)
    ensures match r
            case None => forall i :: i >= |file| - 131072 ==> !OccursAt(file, METADATA_MARKER, i)
            case Some((start, size)) =>
              && start + size == |file|
              && |file| - 131072 <= start - |METADATA_MARKER|
              && OccursAt(file, METADATA_MARKER, start - |METADATA_MARKER|)
              && forall i :: i > start - |METADATA_MARKER| ==> !OccursAt(file, METADATA_MARKER, i)
  {
    var maxSize := if |file| > METADATA_BLOCK_MAX_SIZE then METADATA_BLOCK_MAX_SIZE else |file|;
    r := FindLast(file, |file| - maxSize, METADATA_MARKER);
  }

  /** The loop of `find_metadata`: what follows the last marker at or after `start`. */
  method FindLast(file: seq<Byte>, start: nat, marker: seq<Byte>) returns (r: Option<(nat, nat)>)
    requires start <= |file| && FirstByteUnique(marker)
    ensures match r
            case None => forall i :: i >= start ==> !OccursAt(file, marker, i)
            case Some((end, size)) =>
              && end + size == |file|
              && start <= end - |marker|
              && OccursAt(file, marker, end - |marker|)
              && forall i :: i > end - |marker| ==> !OccursAt(file, marker, i)
  {
    var markerLen := |marker|;
    var searchArea := start;
    var maxSize := |file| - start;
    var more := true;
    while more
      invariant start <= searchArea && searchArea + maxSize == |file| && 0 <= maxSize
      invariant searchArea == start ||
        (start <= searchArea - markerLen && OccursAt(file, marker, searchArea - markerLen))
      invariant !more ==> forall i :: searchArea <= i ==> !OccursAt(file, marker, i)
      decreases more, maxSize
    {
      var area := file[searchArea..searchArea + maxSize];
      assert area == file[searchArea..];
      var tmp := Memmem(area, marker);
      match tmp {
        case None =>
          forall i | searchArea <= i
            ensures !OccursAt(file, marker, i)
          {
            OccursInRest(file, marker, searchArea, i);
          }
          more := false;
        case Some(at) =>
          OccursInRest(file, marker, searchArea, searchArea + at);
          maxSize := maxSize - at - markerLen;
          searchArea := searchArea + at + markerLen;
      }
    }
    if searchArea == start {
      return None;
    }
    forall i | i > searchArea - markerLen
      ensures !OccursAt(file, marker, i)
    {
      if OccursAt(file, marker, i) {
        OccurrencesApart(file, marker, searchArea - markerLen, i);
      }
    }
    r := Some((searchArea, maxSize));
  }
}
