// The parts of a downloaded ZIP archive the crawlers look at: the member
// names in `namelist()` order and, for the bytes of a member, whether they
// decode as UTF-8 text.

module Archive {
  import opened Options
  import opened Text

  /** One archive member; `text` is `None` when its bytes are not valid UTF-8. */
  datatype Member = Member(name: string, text: Option<string>)

  /** `name.endswith(".srt")`, compared case-sensitively. */
  predicate IsSrtName(name: string) {
    EndsWith(name, ".srt")
  }

  /** `[name for name in names if name.endswith(".srt")]` */
  function SrtNames(names: seq<string>): (srts: seq<string>)
    ensures |srts| <= |names|
    ensures forall k :: 0 <= k < |srts| ==> IsSrtName(srts[k]) && srts[k] in names
    ensures forall i :: 0 <= i < |names| && IsSrtName(names[i]) ==> names[i] in srts
  {
    if names == [] then []
    else if IsSrtName(names[0]) then [names[0]] + SrtNames(names[1..])
    else SrtNames(names[1..])
  }

  /**
   * The first name ending in `.srt`; `None` stands for the `IndexError`
   * that indexing an empty filtered list raises.
   */
  function FirstSrt(names: seq<string>): (r: Option<string>)
    ensures r.Some? ==> IsSrtName(r.value)
  {
    if names == [] then None
    else if IsSrtName(names[0]) then Some(names[0])
    else FirstSrt(names[1..])
  }

  /** `FirstSrt` finds a name exactly when there is one, and then the one at the lowest index. */
  lemma {:induction false} FirstSrtSpec(names: seq<string>)
    ensures FirstSrt(names).None? <==> forall i :: 0 <= i < |names| ==> !IsSrtName(names[i])
    ensures FirstSrt(names).Some? ==> exists i :: 0 <= i < |names| && names[i] == FirstSrt(names).value && forall j :: 0 <= j < i ==> !IsSrtName(names[j])
  {
    if names != [] && !IsSrtName(names[0]) {
      FirstSrtSpec(names[1..]);
      if FirstSrt(names).Some? {
        var i :| 0 <= i < |names| - 1 && names[1..][i] == FirstSrt(names).value && forall j :: 0 <= j < i ==> !IsSrtName(names[1..][j]);
        assert names[i + 1] == FirstSrt(names).value;
        assert forall j :: 0 <= j < i + 1 ==> !IsSrtName(names[j]) by {
          forall j | 0 < j < i + 1 ensures !IsSrtName(names[j]) {
            assert names[j] == names[1..][j - 1];
          }
        }
      } else {
        forall i | 0 < i < |names| ensures !IsSrtName(names[i]) {
          assert names[i] == names[1..][i - 1];
        }
      }
    } else if names != [] {
      assert names[0] == FirstSrt(names).value;
    }
  }

  /** The forward scan picks the head of the filtered list, as `[...][0]` does. */
  lemma {:induction false} FirstSrtIsHead(names: seq<string>)
    ensures FirstSrt(names) == if SrtNames(names) == [] then None else Some(SrtNames(names)[0])
  {
    if names != [] && !IsSrtName(names[0]) {
      FirstSrtIsHead(names[1..]);
    }
  }
}
