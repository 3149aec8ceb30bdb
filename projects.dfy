/**
 * The project records of the portfolio gallery and the pure rules over the
 * list of records: the shape of a record each upload flow builds, id
 * allocation, deletion by id and the choice of what a card downloads.
 */
module Projects {
  import opened Wrappers
  import Decimal

  /** A file picked in the browser, known by its name and an opaque identity. */
  datatype File = File(name: string, handle: nat)

  /** A resource reference: a literal address, or an object URL made for a picked file. */
  datatype Url = Remote(address: string) | Blob(file: File)

  datatype Project = Project(
    id: nat,
    title: string,
    description: string,
    imagePath: Url,
    pdfUrl: Option<Url>,
    pdfName: Option<string>)

  /** What a card's download control saves, and under which name. */
  datatype Download = Download(url: Url, fileName: Option<string>)

  const SeedImage := "https://imgur.com/YKXSOrK.png"
  const PdfPlaceholder := "https://via.placeholder.com/300x200.png?text=PDF+Uploaded"

  /** The browser's object-URL factory, abstracted to a reference naming its file. */
  function CreateObjectURL(f: File): Url {
    Blob(f)
  }

  /** `Project n`: the fixed prefix, then a numeral that reads back as the id. */
  function Title(id: nat): (t: string)
    ensures |t| > 8 && t[..8] == "Project " && (t[8] == '0' ==> id == 0)
    ensures Decimal.AllDigits(t[8..]) && Decimal.ParseNat(t[8..]) == id
  {
    Decimal.ParseNatToString(id);
    var title := "Project " + Decimal.NatToString(id);
    assert title[8..] == Decimal.NatToString(id);
    title
  }

  /** `Project n Description`: the title followed by " Description". */
  function Description(id: nat): (d: string)
    ensures d == Title(id) + " Description"
  {
    "Project " + Decimal.NatToString(id) + " Description"
  }

  /**
   * The record invariant: title and description come from the id, a record
   * carries a document exactly when it carries the document's name, and a
   * document record shows the placeholder image.
   */
  predicate WellFormed(p: Project) {
    && p.title == Title(p.id)
    && p.description == Description(p.id)
    && p.pdfUrl.Some? == p.pdfName.Some?
    && (p.pdfUrl.Some? ==> p.imagePath == Remote(PdfPlaceholder))
  }

  /** The one record the list starts with. */
  function SeedProject(): (p: Project)
    ensures WellFormed(p) && p.id == 1 && p.pdfUrl.None?
  {
    assert Decimal.NatToString(1) == "1";
    Project(1, "Project 1", "Project 1 Description", Remote(SeedImage), None, None)
  }

  /** Ids are allocated from the length of the list, not from a counter. */
  function NextId(ps: seq<Project>): (r: nat)
    ensures IdsAreIndices(ps) ==> forall p :: p in ps ==> p.id < r
  {
    |ps| + 1
  }

  function PdfRecord(id: nat, f: File): (p: Project)
    ensures WellFormed(p) && p.id == id
    ensures p.pdfUrl == Some(CreateObjectURL(f)) && p.pdfName == Some(f.name)
    ensures p.imagePath == Remote(PdfPlaceholder)
  {
    Project(id, Title(id), Description(id), Remote(PdfPlaceholder),
            Some(CreateObjectURL(f)), Some(f.name))
  }

  function ImageRecord(id: nat, image: File): (p: Project)
    ensures WellFormed(p) && p.id == id
    ensures p.pdfUrl.None? && p.pdfName.None? && p.imagePath == CreateObjectURL(image)
  {
    Project(id, Title(id), Description(id), CreateObjectURL(image), None, None)
  }

  /** Keeps, in order, every record whose id differs from `id`. */
  function Delete(ps: seq<Project>, id: nat): (r: seq<Project>)
    ensures |r| <= |ps|
    ensures forall p :: p in r <==> p in ps && p.id != id
  {
    if ps == [] then []
    else if ps[0].id != id then [ps[0]] + Delete(ps[1..], id)
    else Delete(ps[1..], id)
  }

  /** A card with a document downloads the document; any other card its image as "<title>.png". */
  function DownloadTarget(p: Project): (d: Download)
    ensures WellFormed(p) ==> d.fileName.Some?
  {
    if p.pdfUrl.Some? then Download(p.pdfUrl.value, p.pdfName)
    else Download(p.imagePath, Some(p.title + ".png"))
  }

  /** `a` is `b` with some elements dropped and the rest in their original order. */
  ghost predicate IsSubsequence(a: seq<Project>, b: seq<Project>)
    decreases |b|
  {
    if a == [] then true
    else if b == [] then false
    else (a[0] == b[0] && IsSubsequence(a[1..], b[1..])) || IsSubsequence(a, b[1..])
  }

  /** The i-th record (counting from 0) has id i + 1. */
  ghost predicate IdsAreIndices(ps: seq<Project>) {
    forall i :: 0 <= i < |ps| ==> ps[i].id == i + 1
  }

  function Ids(ps: seq<Project>): (ids: seq<nat>)
    ensures |ids| == |ps| && forall i :: 0 <= i < |ps| ==> ids[i] == ps[i].id
  {
    if ps == [] then [] else [ps[0].id] + Ids(ps[1..])
  }

  // ---------------------------------------------------------------- deletion

  lemma {:induction false} DeleteIsSubsequence(ps: seq<Project>, id: nat)
    ensures IsSubsequence(Delete(ps, id), ps)
    decreases |ps|
  {
    if ps != [] {
      DeleteIsSubsequence(ps[1..], id);
      var r := Delete(ps, id);
      if ps[0].id != id {
        assert r[0] == ps[0] && r[1..] == Delete(ps[1..], id);
      } else {
        assert r == Delete(ps[1..], id);
      }
    }
  }

  /** Deletion removes every copy of a record with that id and keeps every other record as often as it occurred. */
  lemma {:induction false} DeleteCounts(ps: seq<Project>, id: nat, p: Project)
    ensures multiset(Delete(ps, id))[p] == if p.id == id then 0 else multiset(ps)[p]
    decreases |ps|
  {
    if ps != [] {
      DeleteCounts(ps[1..], id, p);
      assert ps == [ps[0]] + ps[1..];
    }
  }

  lemma {:induction false} DeleteConcat(a: seq<Project>, b: seq<Project>, id: nat)
    ensures Delete(a + b, id) == Delete(a, id) + Delete(b, id)
    decreases |a|
  {
    if a == [] {
      assert a + b == b;
    } else {
      assert (a + b)[0] == a[0] && (a + b)[1..] == a[1..] + b;
      DeleteConcat(a[1..], b, id);
    }
  }

  /** Deleting an id no record carries leaves the list as it was. */
  lemma {:induction false} DeleteAbsent(ps: seq<Project>, id: nat)
    requires forall p :: p in ps ==> p.id != id
    ensures Delete(ps, id) == ps
    decreases |ps|
  {
    if ps != [] {
      DeleteAbsent(ps[1..], id);
    }
  }

  /** Deleting twice is deleting once. */
  lemma DeleteIdempotent(ps: seq<Project>, id: nat)
    ensures Delete(Delete(ps, id), id) == Delete(ps, id)
  {
  }

  // ------------------------------------------------------------- id allocation

  /** Extending the list by one record with the length-based id keeps ids equal to positions. */
  lemma ExtendKeepsIdsAreIndices(before: seq<Project>, after: seq<Project>)
    requires IdsAreIndices(before)
    requires |after| == |before| + 1 && after[..|before|] == before
    requires after[|before|].id == NextId(before)
    ensures IdsAreIndices(after)
  {
  }

  /** While ids equal positions, no two records share an id. */
  lemma IdsAreIndicesUnique(ps: seq<Project>)
    requires IdsAreIndices(ps)
    ensures forall i, j :: 0 <= i < |ps| && 0 <= j < |ps| && ps[i].id == ps[j].id ==> i == j
  {
  }

  /** Below position k - 1 every id is smaller than k; from position k on, larger. */
  lemma IdsAroundIndex(ps: seq<Project>, k: nat)
    requires IdsAreIndices(ps) && 1 <= k <= |ps|
    ensures forall p :: p in ps[..k - 1] ==> p.id != k
    ensures forall p :: p in ps[k..] ==> p.id != k
  {
  }

  /** While ids equal positions, deleting id k removes exactly the k-th record. */
  lemma DeleteIndexedId(ps: seq<Project>, k: nat)
    requires IdsAreIndices(ps) && 1 <= k <= |ps|
    ensures Delete(ps, k) == ps[..k - 1] + ps[k..]
  {
    var front, back := ps[..k - 1], ps[k..];
    assert ps == front + ([ps[k - 1]] + back);
    DeleteConcat(front, [ps[k - 1]] + back, k);
    assert Delete([ps[k - 1]] + back, k) == Delete(back, k);
    IdsAroundIndex(ps, k);
    DeleteAbsent(front, k);
    DeleteAbsent(back, k);
  }

  /**
   * Length-based allocation after a deletion: once any record but the last
   * is deleted, the next id handed out equals the id of the last remaining
   * record, so the next commit produces a duplicate.
   */
  lemma DeleteThenAllocateCollides(ps: seq<Project>, k: nat)
    requires IdsAreIndices(ps) && 1 <= k < |ps|
    ensures var rest := Delete(ps, k);
      rest != [] && NextId(rest) == rest[|rest| - 1].id == |ps|
  {
    DeleteIndexedId(ps, k);
  }

  // ------------------------------------------------------------------ download

  lemma DownloadOfPdfRecord(id: nat, f: File)
    ensures DownloadTarget(PdfRecord(id, f)) == Download(CreateObjectURL(f), Some(f.name))
  {
  }

  lemma DownloadOfImageRecord(id: nat, image: File)
    ensures DownloadTarget(ImageRecord(id, image)) == Download(CreateObjectURL(image), Some(Title(id) + ".png"))
  {
  }

  /** Two image cards get the same suggested file name exactly when they have the same id. */
  lemma ImageDownloadNamesFollowIds(p: Project, q: Project)
    requires WellFormed(p) && WellFormed(q) && p.pdfUrl.None? && q.pdfUrl.None?
    ensures DownloadTarget(p).fileName == DownloadTarget(q).fileName <==> p.id == q.id
  {
    if DownloadTarget(p).fileName == DownloadTarget(q).fileName {
      var a, b := Decimal.NatToString(p.id), Decimal.NatToString(q.id);
      assert p.title + ".png" == q.title + ".png";
      assert |a| == |b|;
      assert a == (p.title + ".png")[8..8 + |a|];
      assert b == (q.title + ".png")[8..8 + |b|];
      Decimal.NatToStringInjective(p.id, q.id);
    }
  }
}
