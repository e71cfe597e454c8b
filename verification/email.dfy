/** The email side of the forwarder: a message as a tree of MIME parts, the
    order in which `Message.walk()` visits them, and the search for the part
    that carries the zipped report (`get_zippart`). */
module Email {
  import opened Wrappers

  /** One MIME part: its content type as `get_content_type()` reports it,
      whether `is_multipart()` holds (its payload is a list of sub-parts),
      and those sub-parts in order. */
  datatype Part = Part(contentType: string, isMultipart: bool, children: seq<Part>)

  const ZipType: string := "application/zip"

  predicate IsZip(p: Part) {
    p.contentType == ZipType
  }

  /** The parts `p.walk()` yields: p itself and then, only when p is
      multipart, the walks of its sub-parts in order (depth-first pre-order). */
  function Walk(p: Part): (w: seq<Part>)
    ensures |w| > 0 && w[0] == p
    decreases p, 1
  {
    [p] + (if p.isMultipart then WalkAll(p.children) else [])
  }

  /** The walks of ps, one after the other. */
  function WalkAll(ps: seq<Part>): seq<Part>
    decreases ps, 0
  {
    if |ps| == 0 then [] else Walk(ps[0]) + WalkAll(ps[1..])
  }

  /** q is a part of the message rooted at p: p itself, or a part of one of
      the sub-parts when p is multipart. */
  predicate InTree(p: Part, q: Part)
    decreases p
  {
    q == p || (p.isMultipart && exists i :: 0 <= i < |p.children| && InTree(p.children[i], q))
  }

  /** The walk visits exactly the parts of the tree. */
  lemma {:induction false} WalkCoversTree(p: Part, q: Part)
    ensures q in Walk(p) <==> InTree(p, q)
    decreases p, 1
  {
    if p.isMultipart {
      WalkAllCoversForest(p.children, q);
    }
  }

  lemma {:induction false} WalkAllCoversForest(ps: seq<Part>, q: Part)
    ensures q in WalkAll(ps) <==> exists i :: 0 <= i < |ps| && InTree(ps[i], q)
    decreases ps, 0
  {
    if |ps| > 0 {
      WalkCoversTree(ps[0], q);
      WalkAllCoversForest(ps[1..], q);
      if exists i :: 0 <= i < |ps| && InTree(ps[i], q) {
        var i :| 0 <= i < |ps| && InTree(ps[i], q);
        if i > 0 {
          assert ps[1..][i - 1] == ps[i];
        }
      }
      if exists i :: 0 <= i < |ps[1..]| && InTree(ps[1..][i], q) {
        var i :| 0 <= i < |ps[1..]| && InTree(ps[1..][i], q);
        assert ps[i + 1] == ps[1..][i];
      }
    }
  }

  /** r is the first zip part of ps, or None when ps holds none. */
  predicate IsFirstZip(ps: seq<Part>, r: Option<Part>) {
    match r
    case None => forall i :: 0 <= i < |ps| ==> !IsZip(ps[i])
    case Some(z) =>
      exists i :: 0 <= i < |ps| && ps[i] == z && IsZip(z) && forall j :: 0 <= j < i ==> !IsZip(ps[j])
  }

  /** The `for part in ...: if ...: return part` scan: the first zip part. */
  function FirstZip(ps: seq<Part>): (r: Option<Part>)
    ensures IsFirstZip(ps, r)
  {
    if |ps| == 0 then None
    else if IsZip(ps[0]) then Some(ps[0])
    else
      var r := FirstZip(ps[1..]);
      assert forall j :: 1 <= j < |ps| ==> ps[j] == ps[1..][j - 1];
      r
  }

  /** `get_zippart`: the message itself when its own type is the zip type,
      otherwise, for a multipart message, the first zip part of its walk,
      and None otherwise. */
  function GetZipPart(msg: Part): (r: Option<Part>)
    ensures IsZip(msg) ==> r == Some(msg)
    ensures IsFirstZip(Walk(msg), r)
  {
    if IsZip(msg) then Some(msg)
    else if msg.isMultipart then FirstZip(Walk(msg))
    else None
  }

  /** The search covers the whole nested tree: it finds a zip part of the
      message whenever there is one, and only ever returns such a part. */
  lemma GetZipPartSearchesTree(msg: Part)
    ensures GetZipPart(msg).Some? ==> IsZip(GetZipPart(msg).value) && InTree(msg, GetZipPart(msg).value)
    ensures GetZipPart(msg).None? <==> forall q :: InTree(msg, q) ==> !IsZip(q)
  {
    var r := GetZipPart(msg);
    var w := Walk(msg);
    if r.Some? {
      WalkCoversTree(msg, r.value);
    } else {
      forall q | InTree(msg, q)
        ensures !IsZip(q)
      {
        WalkCoversTree(msg, q);
      }
    }
  }
}
