/** The HTML id that `get_image_info` in `src/thumbtack/utils.py` gives each volume:
    the image's relative path with `/`, `:` and `.` replaced, then `_` and the
    partition index. */
module VolumeUid {
  import opened Text

  /** `rel_path.replace("/", "_").replace(":", "-").replace(".", "-")`. */
  function Sanitize(rel: string): (r: string)
    ensures |r| == |rel|
    ensures '/' !in r && ':' !in r && '.' !in r
    ensures forall i :: 0 <= i < |rel| && rel[i] != '/' && rel[i] != ':' && rel[i] != '.' ==> r[i] == rel[i]
  {
    Replace(Replace(Replace(rel, '/', '_'), ':', '-'), '.', '-')
  }

  /** The character that `Sanitize` puts in place of `c`. */
  function SanitizeChar(c: char): char {
    if c == '/' then '_' else if c == ':' || c == '.' then '-' else c
  }

  /** Sanitising works character by character: `/` becomes `_`, `:` and `.` become `-`,
      and every other character is kept; so no separator survives. */
  lemma SanitizePointwise(rel: string)
    ensures |Sanitize(rel)| == |rel|
    ensures forall i :: 0 <= i < |rel| ==> Sanitize(rel)[i] == SanitizeChar(rel[i])
    ensures '/' !in Sanitize(rel) && ':' !in Sanitize(rel) && '.' !in Sanitize(rel)
  {
  }

  /** `f"{sanitized_rel_file}_{volume['partition_index']}"`. */
  function Uid(rel: string, index: int): (uid: string)
    ensures '/' !in uid && ':' !in uid && '.' !in uid
    ensures |uid| > |rel| + 1 && uid[..|rel|] == Sanitize(rel) && uid[|rel|] == '_'
    ensures uid[|rel| + 1..] == IntToString(index)
  {
    SanitizePointwise(rel);
    Sanitize(rel) + "_" + IntToString(index)
  }

  /** Two volumes of the same image get different ids: the index after the `_` reads
      back as the index it was printed from. */
  lemma UidDistinctIndices(rel: string, i: int, j: int)
    ensures ParseInt(Uid(rel, i)[|rel| + 1..]) == i
    ensures i != j ==> Uid(rel, i) != Uid(rel, j)
  {
    IntToStringRoundTrip(i);
    IntToStringRoundTrip(j);
  }

  /** Sanitising twice changes nothing more. */
  lemma SanitizeIdempotent(rel: string)
    ensures Sanitize(Sanitize(rel)) == Sanitize(rel)
  {
    SanitizePointwise(rel);
    SanitizePointwise(Sanitize(rel));
  }

  /** Different paths can share an id: a `/` and a `_` in the same place give the same
      uid, and so do `:` and `.`. */
  lemma SanitizeMerges(a: string, b: string)
    requires |a| == |b|
    requires forall i :: 0 <= i < |a| ==> SanitizeChar(a[i]) == SanitizeChar(b[i])
    ensures forall index :: Uid(a, index) == Uid(b, index)
  {
    SanitizePointwise(a);
    SanitizePointwise(b);
    assert Sanitize(a) == Sanitize(b);
  }
}
