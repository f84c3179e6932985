/** Collecting the files of linked Drive folders
    (ckan-ingestor-rs/ckan-ingestor-lib/src/readers/external_resource_crawler_reader.rs, `collect_drive_files`). */
module DriveCollector {
  import opened Common
  import ArchiveVisit

  /** What the Drive holds under an identifier. A folder lists its children; folders may contain each other. */
  datatype Node = Folder(children: seq<string>) | File(name: string)

  type Drive = map<string, Node>

  datatype Link = Link(id: string, folder: bool)

  ghost predicate Complete(drive: Drive) {
    forall id :: id in drive && drive[id].Folder? ==> forall c :: c in drive[id].children ==> c in drive
  }

  /** Children listed under an identifier; something that is not a folder has none. */
  function Listing(drive: Drive, id: string): seq<string> {
    if id in drive && drive[id].Folder? then drive[id].children else []
  }

  // ----- What should be found -----

  /** A chain of folder listings, starting at one of the links. */
  ghost predicate Path(drive: Drive, links: set<string>, path: seq<string>) {
    && path != [] && path[0] in links
    && forall i :: 0 <= i < |path| - 1 ==> path[i + 1] in Listing(drive, path[i])
  }

  ghost predicate Reachable(drive: Drive, links: set<string>, id: string) {
    exists path :: Path(drive, links, path) && path[|path| - 1] == id
  }

  ghost predicate Wanted(drive: Drive, links: set<string>, format: string, id: string) {
    && Reachable(drive, links, id) && id in drive && drive[id].File?
    && ArchiveVisit.MatchesFormat(drive[id].name, format)
  }

  lemma LinkReachable(drive: Drive, links: set<string>, id: string)
    requires id in links
    ensures Reachable(drive, links, id)
  {
    assert Path(drive, links, [id]);
  }

  lemma ChildReachable(drive: Drive, links: set<string>, id: string, child: string)
    requires Reachable(drive, links, id) && child in Listing(drive, id)
    ensures Reachable(drive, links, child)
  {
    var path :| Path(drive, links, path) && path[|path| - 1] == id;
    var longer := path + [child];
    assert Path(drive, links, longer);
    assert longer[|longer| - 1] == child;
  }

  /** A set of identifiers that has the links and is closed under listing has everything reachable. */
  lemma {:induction false} ClosedSetHasPath(drive: Drive, links: set<string>, closed: set<string>, path: seq<string>)
    requires links <= closed && forall id, c :: id in closed && c in Listing(drive, id) ==> c in closed
    requires Path(drive, links, path)
    ensures path[|path| - 1] in closed
  {
    var n := |path| - 1;
    if n > 0 {
      assert Path(drive, links, path[..n]);
      ClosedSetHasPath(drive, links, closed, path[..n]);
      assert path[n - 1 + 1] in Listing(drive, path[n - 1]);
    }
  }

  lemma ListedIsHeld(drive: Drive, links: set<string>, path: seq<string>)
    requires Complete(drive) && Path(drive, links, path) && |path| > 1
    ensures path[|path| - 1] in drive
  {
    assert path[|path| - 2 + 1] in Listing(drive, path[|path| - 2]);
  }

  /** Whatever the Drive lists it also holds; only a link itself can lead nowhere. */
  lemma MissingIsLink(drive: Drive, links: set<string>, id: string)
    requires Complete(drive) && Reachable(drive, links, id) && id !in drive
    ensures id in links
  {
    var path :| Path(drive, links, path) && path[|path| - 1] == id;
    if |path| > 1 { ListedIsHeld(drive, links, path); }
  }

  // ----- The worklist -----

  /** A link that is not known to be a folder may come back once as one. */
  function Weight(pending: seq<Link>): nat {
    if pending == [] then 0 else Weight(pending[..|pending| - 1]) + if pending[|pending| - 1].folder then 1 else 2
  }

  /** A file linked as if it were a folder lists nothing and is not looked up. */
  predicate Inert(drive: Drive, link: Link) { link.folder && link.id in drive && drive[link.id].File? }

  /** Looked at: folders listed, wanted files taken. */
  ghost predicate Handled(drive: Drive, folders: set<string>, files: set<string>, format: string, id: string) {
    id in drive &&
    match drive[id]
    case Folder(_) => id in folders
    case File(name) => ArchiveVisit.MatchesFormat(name, format) ==> id in files
  }

  ghost predicate Awaited(drive: Drive, pending: seq<Link>, id: string) {
    exists i :: 0 <= i < |pending| && pending[i].id == id && !Inert(drive, pending[i])
  }

  ghost predicate Sound(drive: Drive, starts: set<string>, link: Link) {
    Inert(drive, link) || Reachable(drive, starts, link.id)
  }

  ghost predicate Covered(drive: Drive, pending: seq<Link>, folders: set<string>, files: set<string>, format: string, id: string) {
    Awaited(drive, pending, id) || Handled(drive, folders, files, format, id)
  }

  /** `pending` and what was taken so far are right, and nothing due has been forgotten. */
  ghost predicate Invariant(drive: Drive, starts: set<string>, format: string, pending: seq<Link>, folders: set<string>, files: set<string>) {
    && (forall i :: 0 <= i < |pending| ==> Sound(drive, starts, pending[i]))
    && (forall id :: id in files ==> Wanted(drive, starts, format, id))
    && folders <= drive.Keys
    && (forall id :: id in starts ==> Covered(drive, pending, folders, files, format, id))
    && (forall id, c :: id in folders && c in Listing(drive, id) ==> Covered(drive, pending, folders, files, format, c))
  }

  ghost function IdsOf(found: seq<string>): set<string> { set id | id in found }

  ghost predicate NoDuplicates(found: seq<string>) {
    forall i, j :: 0 <= i < j < |found| ==> found[i] != found[j]
  }

  ghost function Starts(drive: Drive, links: seq<Link>): set<string> {
    set i | 0 <= i < |links| && !Inert(drive, links[i]) :: links[i].id
  }

  /** The worklist may lose its last link once that link is inert, awaited again, or handled; it may gain any
      sound links, and files may be taken. */
  lemma Advance(drive: Drive, starts: set<string>, format: string, pending: seq<Link>, folders: set<string>, files: set<string>,
                pending': seq<Link>, folders': set<string>, files': set<string>)
    requires pending != [] && Invariant(drive, starts, format, pending, folders, files)
    requires pending[..|pending| - 1] <= pending' && folders <= folders' <= drive.Keys && files <= files'
    requires Inert(drive, pending[|pending| - 1]) || Covered(drive, pending', folders', files', format, pending[|pending| - 1].id)
    requires forall i :: 0 <= i < |pending'| ==> Sound(drive, starts, pending'[i])
    requires forall id :: id in files' ==> Wanted(drive, starts, format, id)
    requires forall id, c :: id in folders' - folders && c in Listing(drive, id) ==> Covered(drive, pending', folders', files', format, c)
    ensures Invariant(drive, starts, format, pending', folders', files')
  {
    var n := |pending| - 1;
    forall id | Covered(drive, pending, folders, files, format, id) ensures Covered(drive, pending', folders', files', format, id) {
      if Awaited(drive, pending, id) {
        var i :| 0 <= i < |pending| && pending[i].id == id && !Inert(drive, pending[i]);
        if i < n { assert pending'[i] == pending[..n][i] == pending[i]; }
      }
    }
  }

  /** When nothing is awaited any more, exactly the wanted files have been taken. */
  lemma NothingAwaited(drive: Drive, starts: set<string>, format: string, folders: set<string>, files: set<string>)
    requires Complete(drive) && Invariant(drive, starts, format, [], folders, files)
    ensures forall id :: id in files <==> Wanted(drive, starts, format, id)
    ensures starts <= drive.Keys
  {
    var closed := set id | id in drive && Handled(drive, folders, files, format, id);
    assert forall id :: Covered(drive, [], folders, files, format, id) ==> id in closed;
    forall id | Wanted(drive, starts, format, id) ensures id in files {
      var path :| Path(drive, starts, path) && path[|path| - 1] == id;
      ClosedSetHasPath(drive, starts, closed, path);
    }
  }

  lemma StartInvariant(drive: Drive, links: seq<Link>, format: string)
    ensures Invariant(drive, Starts(drive, links), format, links, {}, {})
  {
    var starts := Starts(drive, links);
    forall i | 0 <= i < |links| ensures Sound(drive, starts, links[i]) {
      if !Inert(drive, links[i]) { LinkReachable(drive, starts, links[i].id); }
    }
    forall id | id in starts ensures Covered(drive, links, {}, {}, format, id) {
      assert Awaited(drive, links, id);
    }
  }

  /** Terminates on every Drive, cyclic or not. A link to something the Drive does not hold is an error. */
  method CollectDriveFiles(drive: Drive, links: seq<Link>, format: string) returns (found: Option<seq<string>>)
    requires Complete(drive)
    ensures found.Some? <==> Starts(drive, links) <= drive.Keys
    ensures found.Some? ==>
              && NoDuplicates(found.value)
              && forall id :: id in found.value <==> Wanted(drive, Starts(drive, links), format, id)
  {
    ghost var starts := Starts(drive, links);
    var pending := links;
    var folders: set<string> := {};
    var files: set<string> := {};
    var result: seq<string> := [];
    StartInvariant(drive, links, format);
    while pending != []
      invariant Invariant(drive, starts, format, pending, folders, files)
      invariant NoDuplicates(result) && files == IdsOf(result)
      decreases drive.Keys - folders, Weight(pending)
    {
      var link := pending[|pending| - 1];
      assert Sound(drive, starts, link);
      if link.id !in drive {
        MissingIsLink(drive, starts, link.id);
        return None;
      }
      if link.folder && link.id in folders {
        Advance(drive, starts, format, pending, folders, files, pending[..|pending| - 1], folders, files);
        pending := pending[..|pending| - 1];
      } else if link.folder {
        pending, files, result := ListFolder(drive, starts, format, pending, folders, files, result);
        folders := folders + {link.id};
      } else {
        pending, files, result := LookUp(drive, starts, format, pending, folders, files, result);
      }
    }
    NothingAwaited(drive, starts, format, folders, files);
    return Some(result);
  }

  /** Takes a wanted file once. */
  method Take(drive: Drive, format: string, id: string, files: set<string>, result: seq<string>)
    returns (files': set<string>, result': seq<string>)
    requires id in drive && drive[id].File? && NoDuplicates(result) && files == IdsOf(result)
    ensures NoDuplicates(result') && files' == IdsOf(result')
    ensures files' == if ArchiveVisit.MatchesFormat(drive[id].name, format) then files + {id} else files
  {
    files', result' := files, result;
    if ArchiveVisit.MatchesFormat(drive[id].name, format) && id !in files {
      files', result' := files + {id}, result + [id];
      assert forall i :: 0 <= i < |result| ==> result[i] in IdsOf(result);
      assert IdsOf(result + [id]) == IdsOf(result) + {id};
    }
  }

  /** The branch for a link that is not marked as a folder: a file is taken, a folder comes back as one. */
  method LookUp(drive: Drive, ghost starts: set<string>, format: string, pending: seq<Link>, ghost folders: set<string>,
                files: set<string>, result: seq<string>)
    returns (pending': seq<Link>, files': set<string>, result': seq<string>)
    requires pending != [] && !pending[|pending| - 1].folder && pending[|pending| - 1].id in drive
    requires Invariant(drive, starts, format, pending, folders, files)
    requires NoDuplicates(result) && files == IdsOf(result)
    ensures Invariant(drive, starts, format, pending', folders, files')
    ensures NoDuplicates(result') && files' == IdsOf(result')
    ensures Weight(pending') < Weight(pending)
  {
    var link := pending[|pending| - 1];
    var rest := pending[..|pending| - 1];
    assert Sound(drive, starts, link);
    assert forall i :: 0 <= i < |rest| ==> Sound(drive, starts, pending[i]);
    pending', files', result' := rest, files, result;
    match drive[link.id] {
      case Folder(_) =>
        pending' := rest + [link.(folder := true)];
        assert pending'[..|rest|] == rest && pending'[|rest|] == link.(folder := true);
        assert Awaited(drive, pending', link.id);
      case File(name) =>
        files', result' := Take(drive, format, link.id, files, result);
    }
    Advance(drive, starts, format, pending, folders, files, pending', folders, files');
  }

  /** The branch for a folder seen for the first time. */
  method ListFolder(drive: Drive, ghost starts: set<string>, format: string, pending: seq<Link>, ghost folders: set<string>,
                    files: set<string>, result: seq<string>)
    returns (pending': seq<Link>, files': set<string>, result': seq<string>)
    requires Complete(drive) && pending != [] && pending[|pending| - 1].folder && pending[|pending| - 1].id in drive
    requires Invariant(drive, starts, format, pending, folders, files)
    requires NoDuplicates(result) && files == IdsOf(result)
    ensures Invariant(drive, starts, format, pending', folders + {pending[|pending| - 1].id}, files')
    ensures NoDuplicates(result') && files' == IdsOf(result')
  {
    var link := pending[|pending| - 1];
    var rest := pending[..|pending| - 1];
    assert Sound(drive, starts, link);
    var children := Listing(drive, link.id);
    ghost var folders' := folders + {link.id};
    pending', files', result' := rest, files, result;
    var j := 0;
    while j < |children|
      invariant 0 <= j <= |children| && rest <= pending' && files <= files'
      invariant forall i :: 0 <= i < |pending'| ==> Sound(drive, starts, pending'[i])
      invariant forall id :: id in files' ==> Wanted(drive, starts, format, id)
      invariant NoDuplicates(result') && files' == IdsOf(result')
      invariant forall i :: 0 <= i < j ==> Covered(drive, pending', folders', files', format, children[i])
    {
      ghost var pending0, files0 := pending', files';
      assert children[j] in Listing(drive, link.id);
      ChildReachable(drive, starts, link.id, children[j]);
      pending', files', result' := AddChild(drive, starts, format, children[j], pending', folders', files', result');
      forall i | 0 <= i < j ensures Covered(drive, pending', folders', files', format, children[i]) {
        CoverGrows(drive, pending0, files0, pending', files', folders', format, children[i]);
      }
      j := j + 1;
    }
    Advance(drive, starts, format, pending, folders, files, pending', folders', files');
  }

  /** A listed folder waits for its turn, a listed file is taken if wanted. */
  method AddChild(drive: Drive, ghost starts: set<string>, format: string, child: string, pending: seq<Link>, ghost folders: set<string>,
                  files: set<string>, result: seq<string>)
    returns (pending': seq<Link>, files': set<string>, result': seq<string>)
    requires child in drive && Reachable(drive, starts, child)
    requires forall i :: 0 <= i < |pending| ==> Sound(drive, starts, pending[i])
    requires forall id :: id in files ==> Wanted(drive, starts, format, id)
    requires NoDuplicates(result) && files == IdsOf(result)
    ensures pending <= pending' && files <= files'
    ensures forall i :: 0 <= i < |pending'| ==> Sound(drive, starts, pending'[i])
    ensures forall id :: id in files' ==> Wanted(drive, starts, format, id)
    ensures NoDuplicates(result') && files' == IdsOf(result')
    ensures Covered(drive, pending', folders, files', format, child)
  {
    pending', files', result' := pending, files, result;
    match drive[child] {
      case Folder(_) =>
        pending' := pending + [Link(child, true)];
        assert pending'[|pending|] == Link(child, true);
      case File(name) =>
        files', result' := Take(drive, format, child, files, result);
    }
  }

  lemma CoverGrows(drive: Drive, pending: seq<Link>, files: set<string>, pending': seq<Link>, files': set<string>,
                   folders: set<string>, format: string, id: string)
    requires Covered(drive, pending, folders, files, format, id) && pending <= pending' && files <= files'
    ensures Covered(drive, pending', folders, files', format, id)
  {
    if Awaited(drive, pending, id) {
      var i :| 0 <= i < |pending| && pending[i].id == id && !Inert(drive, pending[i]);
      assert pending'[i] == pending[i];
    }
  }
}
