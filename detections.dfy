/** Object detections delivered with each camera frame, and the lookup of the
    first detection labelled "person" that the frame handler starts from. */
module Detections {

  datatype Option<T> = None | Some(value: T)

  /** One detection: `category` is the label of its first (top-scoring) category;
      the other fields are the edges of its bounding box, in integer image coordinates. */
  datatype Detection = Detection(category: string, left: int, top: int, right: int, bottom: int)

  const PersonLabel: string := "person"

  /** Width and height of the box, as a rectangle built from the four edges reports them. */
  function Width(d: Detection): int { d.right - d.left }

  function Height(d: Detection): int { d.bottom - d.top }

  predicate IsPerson(d: Detection) { d.category == PersonLabel }

  /** The posture proxy: a box wider than it is tall reads as a person lying down. */
  predicate WiderThanTall(d: Detection) { Width(d) > Height(d) }

  /** Position of the first detection labelled "person", the index the source's
      `find` stops at. */
  predicate IsFirstPerson(dets: seq<Detection>, k: int)
  {
    0 <= k < |dets| && IsPerson(dets[k]) &&
    forall i :: 0 <= i < k ==> !IsPerson(dets[i])
  }

  /** The first detection labelled "person", or None when no detection has that label. */
  function FindPerson(dets: seq<Detection>): (r: Option<Detection>)
    ensures r.Some? ==> IsPerson(r.value)
  {
    if dets == [] then None
    else if IsPerson(dets[0]) then Some(dets[0])
    else FindPerson(dets[1..])
  }

  /** The lookup answers None exactly when no detection is labelled "person",
      and otherwise the detection at the first index that is. */
  lemma {:induction false} FindPersonIsFirst(dets: seq<Detection>)
    ensures FindPerson(dets).None? <==> forall i :: 0 <= i < |dets| ==> !IsPerson(dets[i])
    ensures FindPerson(dets).Some? ==>
      exists k :: IsFirstPerson(dets, k) && dets[k] == FindPerson(dets).value
  {
    if dets != [] {
      if IsPerson(dets[0]) {
        assert IsFirstPerson(dets, 0);
      } else {
        var r := FindPerson(dets[1..]);
        FindPersonIsFirst(dets[1..]);
        if r.Some? {
          var k :| IsFirstPerson(dets[1..], k) && dets[1..][k] == r.value;
          assert IsFirstPerson(dets, k + 1);
        } else {
          forall i | 0 <= i < |dets| ensures !IsPerson(dets[i]) {
            if i > 0 { assert dets[i] == dets[1..][i - 1]; }
          }
        }
      }
    }
  }

  /** Only the first person counts: whatever follows it in the frame, the lookup
      returns that one. */
  lemma {:induction false} FindPersonIgnoresLater(dets: seq<Detection>, d: Detection, rest: seq<Detection>)
    requires forall i :: 0 <= i < |dets| ==> !IsPerson(dets[i])
    requires IsPerson(d)
    ensures FindPerson(dets + [d] + rest) == Some(d)
  {
    if dets != [] {
      assert (dets + [d] + rest)[1..] == dets[1..] + [d] + rest;
      FindPersonIgnoresLater(dets[1..], d, rest);
    }
  }
}
