/**
 * The Portfolio component's state machine: the project list, the two
 * pending-upload slots, and the storage keys mirroring them, changed by the
 * component's event handlers. Each handler runs as one atomic transition
 * computed from the state it reads.
 */
module PortfolioState {
  import opened Wrappers
  import opened Projects

  const FileKey := "selectedFile"
  const ImageKey := "selectedImage"
  const SelectFileFirst := "Please select a file first!"
  const SelectImageFirst := "Please select an image first!"

  /** What a commit control reports: the id of the added record, or the alert shown instead. */
  datatype Outcome = Added(id: nat) | Alerted(message: string)

  /** The user actions the rendered controls wire to the handlers. */
  datatype Event =
    | PickFile(file: Option<File>)
    | PickImage(image: Option<File>)
    | AddWithPdf
    | AddWithImage
    | DeleteCard(id: nat)

  /** The keys the storage mirror writes when it reads these slot values. */
  function SavedKeys(file: Option<File>, image: Option<File>): (keys: set<string>)
    ensures FileKey in keys <==> file.Some?
    ensures ImageKey in keys <==> image.Some?
    ensures keys <= {FileKey, ImageKey}
  {
    (if file.Some? then {FileKey} else {}) + (if image.Some? then {ImageKey} else {})
  }

  class Portfolio {
    var projects: seq<Project>
    var selectedFile: Option<File>
    var selectedImage: Option<File>
    /** The local-storage keys currently present. */
    var stored: set<string>

    ghost predicate Valid()
      reads this
    {
      forall p :: p in projects ==> WellFormed(p)
    }

    /** Mounting: the seeded list and empty slots; storage keeps what an earlier session left. */
    constructor (persisted: set<string>)
      ensures Valid()
      ensures projects == [SeedProject()] && IdsAreIndices(projects)
      ensures selectedFile.None? && selectedImage.None? && stored == persisted
    {
      projects := [SeedProject()];
      selectedFile := None;
      selectedImage := None;
      stored := persisted;
    }

    /**
     * Picking a document overwrites the document slot. The storage mirror
     * runs in the same handler but sees the slots as they were before the
     * pick, so it saves the previous selection, not this one.
     */
    method HandleFileUpload(file: Option<File>)
      requires Valid()
      modifies this
      ensures Valid()
      ensures selectedFile == file
      ensures projects == old(projects) && selectedImage == old(selectedImage)
      ensures stored == old(stored) + SavedKeys(old(selectedFile), old(selectedImage))
    {
      var fileBefore, imageBefore := selectedFile, selectedImage;
      selectedFile := file;
      stored := stored + SavedKeys(fileBefore, imageBefore);
    }

    /** Picking an image overwrites the image slot; the mirror saves the previous selection. */
    method HandleImageUpload(image: Option<File>)
      requires Valid()
      modifies this
      ensures Valid()
      ensures selectedImage == image
      ensures projects == old(projects) && selectedFile == old(selectedFile)
      ensures stored == old(stored) + SavedKeys(old(selectedFile), old(selectedImage))
    {
      var fileBefore, imageBefore := selectedFile, selectedImage;
      selectedImage := image;
      stored := stored + SavedKeys(fileBefore, imageBefore);
    }

    /**
     * Turns the pending document into a new record at the end of the list,
     * or, with no document pending, alerts and changes nothing.
     */
    method AddProjectWithPdf() returns (outcome: Outcome)
      requires Valid()
      modifies this
      ensures Valid()
      ensures selectedImage == old(selectedImage)
      ensures old(selectedFile).None? ==>
        && outcome == Alerted(SelectFileFirst)
        && projects == old(projects) && selectedFile == old(selectedFile) && stored == old(stored)
      ensures old(selectedFile).Some? ==>
        var n, f := |old(projects)|, old(selectedFile).value;
        && outcome == Added(n + 1)
        && |projects| == n + 1 && projects[..n] == old(projects)
        && projects[n].id == n + 1
        && projects[n].title == Title(n + 1) && projects[n].description == Description(n + 1)
        && projects[n].imagePath == Remote(PdfPlaceholder)
        && projects[n].pdfUrl == Some(CreateObjectURL(f)) && projects[n].pdfName == Some(f.name)
        && selectedFile.None? && stored == old(stored) - {FileKey}
    {
      if selectedFile.Some? {
        var newId := NextId(projects);
        projects := projects + [PdfRecord(newId, selectedFile.value)];
        selectedFile := None;
        stored := stored - {FileKey};
        outcome := Added(newId);
      } else {
        outcome := Alerted(SelectFileFirst);
      }
    }

    /**
     * Turns the pending image into a new record at the end of the list,
     * or, with no image pending, alerts and changes nothing.
     */
    method AddProjectWithImage() returns (outcome: Outcome)
      requires Valid()
      modifies this
      ensures Valid()
      ensures selectedFile == old(selectedFile)
      ensures old(selectedImage).None? ==>
        && outcome == Alerted(SelectImageFirst)
        && projects == old(projects) && selectedImage == old(selectedImage) && stored == old(stored)
      ensures old(selectedImage).Some? ==>
        var n, image := |old(projects)|, old(selectedImage).value;
        && outcome == Added(n + 1)
        && |projects| == n + 1 && projects[..n] == old(projects)
        && projects[n].id == n + 1
        && projects[n].title == Title(n + 1) && projects[n].description == Description(n + 1)
        && projects[n].imagePath == CreateObjectURL(image)
        && projects[n].pdfUrl.None? && projects[n].pdfName.None?
        && selectedImage.None? && stored == old(stored) - {ImageKey}
    {
      if selectedImage.Some? {
        var newId := NextId(projects);
        projects := projects + [ImageRecord(newId, selectedImage.value)];
        selectedImage := None;
        stored := stored - {ImageKey};
        outcome := Added(newId);
      } else {
        outcome := Alerted(SelectImageFirst);
      }
    }

    /** Removes every record carrying `id`; the slots and storage are untouched. */
    method DeleteProject(id: nat)
      requires Valid()
      modifies this
      ensures Valid()
      ensures projects == Delete(old(projects), id)
      ensures forall p :: p in projects ==> p.id != id
      ensures IsSubsequence(projects, old(projects))
      ensures (forall p :: p in old(projects) ==> p.id != id) ==> projects == old(projects)
      ensures selectedFile == old(selectedFile) && selectedImage == old(selectedImage)
      ensures stored == old(stored)
    {
      DeleteIsSubsequence(projects, id);
      if forall p :: p in projects ==> p.id != id {
        DeleteAbsent(projects, id);
      }
      projects := Delete(projects, id);
    }
  }

  /** Every card a valid gallery renders offers its download under some file name. */
  lemma ValidCardsHaveDownloadNames(gallery: Portfolio)
    requires gallery.Valid()
    ensures forall p :: p in gallery.projects ==> DownloadTarget(p).fileName.Some?
  {
  }

  predicate NoDeletes(events: seq<Event>) {
    forall j :: 0 <= j < |events| ==> !events[j].DeleteCard?
  }

  /**
   * The number of commit actions that find their slot filled, when the
   * document and image slots start as given: a pick fills or empties its
   * slot, and a commit empties its slot.
   */
  function SuccessfulCommits(events: seq<Event>, fileFilled: bool, imageFilled: bool): (n: nat)
    ensures n <= |events|
  {
    if events == [] then 0
    else match events[0] {
      case PickFile(f) => SuccessfulCommits(events[1..], f.Some?, imageFilled)
      case PickImage(image) => SuccessfulCommits(events[1..], fileFilled, image.Some?)
      case AddWithPdf => (if fileFilled then 1 else 0) + SuccessfulCommits(events[1..], false, imageFilled)
      case AddWithImage => (if imageFilled then 1 else 0) + SuccessfulCommits(events[1..], fileFilled, false)
      case DeleteCard(_) => SuccessfulCommits(events[1..], fileFilled, imageFilled)
    }
  }

  /**
   * Mounts the component and dispatches a sequence of user actions to the
   * handlers they are wired to. Without deletions the gallery holds one
   * record per successful commit after the seed, and its ids are exactly
   * 1, 2, ..., n, so pairwise distinct.
   */
  method ReplayFromMount(persisted: set<string>, events: seq<Event>)
    returns (gallery: Portfolio, ids: seq<nat>)
    ensures fresh(gallery) && gallery.Valid() && ids == Ids(gallery.projects)
    ensures NoDeletes(events) ==>
      && |ids| == 1 + SuccessfulCommits(events, false, false)
      && gallery.projects[0] == SeedProject()
      && (forall i :: 0 <= i < |ids| ==> ids[i] == i + 1)
      && (forall i, j :: 0 <= i < j < |ids| ==> ids[i] != ids[j])
  {
    gallery := new Portfolio(persisted);
    var i := 0;
    while i < |events|
      invariant 0 <= i <= |events|
      invariant fresh(gallery) && gallery.Valid()
      invariant NoDeletes(events[..i]) ==> IdsAreIndices(gallery.projects)
      invariant NoDeletes(events[..i]) ==> |gallery.projects| >= 1 && gallery.projects[0] == SeedProject()
      invariant NoDeletes(events[..i]) ==>
        |gallery.projects| + SuccessfulCommits(events[i..], gallery.selectedFile.Some?, gallery.selectedImage.Some?)
        == 1 + SuccessfulCommits(events, false, false)
    {
      ghost var before := gallery.projects;
      assert events[i..][0] == events[i] && events[i..][1..] == events[i + 1..];
      match events[i] {
        case PickFile(f) => gallery.HandleFileUpload(f);
        case PickImage(image) => gallery.HandleImageUpload(image);
        case AddWithPdf =>
          var outcome := gallery.AddProjectWithPdf();
          if outcome.Added? && IdsAreIndices(before) {
            ExtendKeepsIdsAreIndices(before, gallery.projects);
          }
        case AddWithImage =>
          var outcome := gallery.AddProjectWithImage();
          if outcome.Added? && IdsAreIndices(before) {
            ExtendKeepsIdsAreIndices(before, gallery.projects);
          }
        case DeleteCard(id) => gallery.DeleteProject(id);
      }
      if NoDeletes(events[..i + 1]) {
        assert !events[i].DeleteCard? by {
          assert events[..i + 1][i] == events[i];
        }
        assert NoDeletes(events[..i]) by {
          forall j | 0 <= j < i ensures !events[..i][j].DeleteCard? {
            assert events[..i][j] == events[..i + 1][j];
          }
        }
      }
      i := i + 1;
    }
    assert events[..i] == events;
    ids := Ids(gallery.projects);
    if NoDeletes(events) {
      IdsAreIndicesUnique(gallery.projects);
    }
  }

  /** The first half of the duplicate-id trace: seed, image commit, document commit, delete id 2. */
  method CommitTwiceThenDeleteSecond(image: File, document: File) returns (gallery: Portfolio)
    ensures fresh(gallery) && gallery.Valid()
    ensures gallery.projects == [SeedProject(), PdfRecord(3, document)]
    ensures gallery.selectedFile.None? && gallery.selectedImage.None?
  {
    gallery := new Portfolio({});
    gallery.HandleImageUpload(Some(image));
    var _ := gallery.AddProjectWithImage();
    assert gallery.projects == [SeedProject(), ImageRecord(2, image)];
    gallery.HandleFileUpload(Some(document));
    var _ := gallery.AddProjectWithPdf();
    assert gallery.projects == [SeedProject(), ImageRecord(2, image), PdfRecord(3, document)];
    DeleteIndexedId(gallery.projects, 2);
    gallery.DeleteProject(2);
  }

  /**
   * The duplicate id: after the first half of the trace one more image
   * commit gets id 3 (the length plus one), the id the document record
   * already has.
   */
  method CommitAfterDeletingSecond(image: File, document: File, another: File) returns (gallery: Portfolio)
    ensures fresh(gallery) && gallery.Valid()
    ensures gallery.projects == [SeedProject(), PdfRecord(3, document), ImageRecord(3, another)]
    ensures Ids(gallery.projects) == [1, 3, 3]
  {
    gallery := CommitTwiceThenDeleteSecond(image, document);
    gallery.HandleImageUpload(Some(another));
    var _ := gallery.AddProjectWithImage();
    assert gallery.projects == [SeedProject(), PdfRecord(3, document)] + [ImageRecord(3, another)];
  }

  /**
   * The whole duplicate-id trace: seed, image commit, document commit,
   * delete id 2, image commit, delete id 3. The last deletion removes both
   * records with id 3 and leaves only the seed.
   */
  method DuplicateIdTrace(image: File, document: File, another: File) returns (gallery: Portfolio)
    ensures fresh(gallery) && gallery.Valid()
    ensures gallery.projects == [SeedProject()]
  {
    gallery := CommitAfterDeletingSecond(image, document, another);
    DeleteConcat([SeedProject()], [PdfRecord(3, document), ImageRecord(3, another)], 3);
    DeleteAbsent([SeedProject()], 3);
    gallery.DeleteProject(3);
  }
}
