/** The values the index engines exchange with their callers: a match of a
    search (object, tag, distance) and the caller's search hints. */
module DonkeyIndex {
  import opened Floats

  datatype Match = Match(obj: nat, tag: nat, distance: real)

  /** SearchRequest as the indexes read it: hint_K (<= 0 means unset) and
      hint_R (not normal means unset). */
  datatype SearchRequest = SearchRequest(hintK: int, hintR: FloatValue)
}
