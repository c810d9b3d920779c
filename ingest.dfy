/**
 * `process_zip_chapters` (app.py:148-219): turning an uploaded archive into
 * chapters of page references.
 *
 * Entries inside a directory are grouped by their first path component, in
 * the order the archive lists them; each group is sorted naturally, its image
 * entries are uploaded one by one to the storage channel, and the references
 * that come back become the pages of the chapter named after the folder.
 * The archive is its list of entry names; reading an entry's bytes, sending it
 * and reading the reply are one abstract `Uploader` call.
 */
module Ingest {
  import opened Wrappers
  import opened Text
  import opened Order
  import opened ChapterNumber
  import opened NaturalSort

  /** A Telegram `file_id`. */
  type FileRef = string

  /** The archive as `zipfile` sees it: unreadable, or its `namelist()`. */
  datatype Archive = Unreadable | Entries(names: seq<string>)

  /**
   * Reading one entry and sending it with a caption: the reference of the
   * stored document (or of the largest photo size), or None when the read or
   * the send raises or the reply holds neither.
   */
  type Uploader = (string, string) -> Option<FileRef>

  /** A file inside a directory: the path has a `/` and does not end with one. */
  predicate InDirectory(path: string) {
    '/' in path && !EndsWith(path, "/")
  }

  /** Where the first `/` of `path` is. */
  function FirstSlash(path: string): (k: nat)
    requires '/' in path
    ensures k < |path| && path[k] == '/'
    ensures forall i :: 0 <= i < k ==> path[i] != '/'
  {
    if path[0] == '/' then 0 else 1 + FirstSlash(path[1..])
  }

  /** `path.split('/')[0]`. */
  function FolderOf(path: string): (f: string)
    requires '/' in path
    ensures '/' !in f
  {
    path[..FirstSlash(path)]
  }

  /** The folders of the entries, each once, in the order they first appear (the dict's insertion order). */
  function Folders(names: seq<string>): seq<string> {
    if names == [] then []
    else
      var rest := Folders(names[..|names| - 1]);
      var path := names[|names| - 1];
      if InDirectory(path) && FolderOf(path) !in rest then rest + [FolderOf(path)] else rest
  }

  /** The entries grouped under `folder`, in archive order. */
  function FilesIn(names: seq<string>, folder: string): (r: seq<string>)
    ensures |r| <= |names|
  {
    if names == [] then []
    else
      var rest := FilesIn(names[..|names| - 1], folder);
      var path := names[|names| - 1];
      if InDirectory(path) && FolderOf(path) == folder then rest + [path] else rest
  }

  /** The extensions the source accepts as images, compared on the lowered name. */
  const ImageExtensions: seq<string> := [".jpg", ".jpeg", ".png", ".webp", ".gif"]

  predicate IsImage(path: string) {
    exists e :: e in ImageExtensions && EndsWith(Lower(path), e)
  }

  /** The caption each page is sent with. */
  function Caption(slug: string, chapter: string): (c: string)
    ensures |c| == |"Page for "| + |slug| + |" Chapter "| + |chapter|
  {
    "Page for " + slug + " Chapter " + chapter
  }

  /** The references of the image entries of `files` whose upload succeeded, in the order of `files`. */
  function UploadAll(files: seq<string>, upload: Uploader, caption: string): (r: seq<FileRef>)
    ensures |r| <= |files|
  {
    if files == [] then []
    else
      var rest := UploadAll(files[..|files| - 1], upload, caption);
      var path := files[|files| - 1];
      if IsImage(path) && upload(path, caption).Some? then rest + [upload(path, caption).value] else rest
  }

  /** The pages of one folder: its entries sorted naturally, then uploaded. */
  function FolderPages(names: seq<string>, folder: string, slug: string, upload: Uploader): seq<FileRef> {
    UploadAll(NaturalSorted(FilesIn(names, folder)), upload, Caption(slug, ExtractChapterNumber(folder)))
  }

  /** `FolderPages` for one archive, slug and uploader, as a function of the folder. */
  function PagesOf(names: seq<string>, slug: string, upload: Uploader): string -> seq<FileRef> {
    folder => FolderPages(names, folder, slug, upload)
  }

  /**
   * The chapters after processing `folders` in order, given each folder's
   * key and pages: a folder without pages adds nothing, a later folder
   * overwrites an earlier one with the same key.
   */
  function Assemble(folders: seq<string>, key: string -> string, pages: string -> seq<FileRef>): map<string, seq<FileRef>> {
    if folders == [] then map[]
    else
      var before := Assemble(folders[..|folders| - 1], key, pages);
      var folder := folders[|folders| - 1];
      if pages(folder) == [] then before else before[key(folder) := pages(folder)]
  }

  /** What `process_zip_chapters` returns; an unreadable archive gives `{}`, and no chapter is empty. */
  function ZipChapters(archive: Archive, slug: string, upload: Uploader): (r: map<string, seq<FileRef>>)
    ensures archive.Unreadable? ==> r == map[]
    ensures forall k :: k in r ==> r[k] != []
  {
    match archive
    case Unreadable => map[]
    case Entries(names) =>
      AssembleNonEmpty(Folders(names), ExtractChapterNumber, PagesOf(names, slug, upload));
      Assemble(Folders(names), ExtractChapterNumber, PagesOf(names, slug, upload))
  }

  /** The grouping loop: `chapters_folders`, as its insertion order and its lists. */
  method GroupByFolder(names: seq<string>) returns (order: seq<string>, groups: map<string, seq<string>>)
    ensures order == Folders(names)
    ensures forall f :: f in groups <==> f in order
    ensures forall f :: f in groups ==> groups[f] == FilesIn(names, f)
  {
    order, groups := [], map[];
    var i := 0;
    while i < |names|
      invariant 0 <= i <= |names|
      invariant order == Folders(names[..i])
      invariant forall f :: f in groups <==> f in order
      invariant forall f :: f in groups ==> groups[f] == FilesIn(names[..i], f)
    {
      var path := names[i];
      assert names[..i + 1][..i] == names[..i];
      if InDirectory(path) {
        var folder := FolderOf(path);
        if folder !in groups {
          FilesInOutsideFolders(names[..i], folder);
          order := order + [folder];
          groups := groups[folder := []];
        }
        groups := groups[folder := groups[folder] + [path]];
      }
      i := i + 1;
    }
    assert names[..i] == names;
  }

  /** The upload loop of one folder: `page_file_ids`. */
  method UploadFiles(files: seq<string>, upload: Uploader, caption: string) returns (pageIds: seq<FileRef>)
    ensures pageIds == UploadAll(files, upload, caption)
  {
    pageIds := [];
    var k := 0;
    while k < |files|
      invariant 0 <= k <= |files|
      invariant pageIds == UploadAll(files[..k], upload, caption)
    {
      var path := files[k];
      assert files[..k + 1][..k] == files[..k];
      if IsImage(path) {
        var reply := upload(path, caption);
        if reply.Some? {
          pageIds := pageIds + [reply.value];
        }
      }
      k := k + 1;
    }
    assert files[..k] == files;
  }

  /** One folder's pages: sort its entries with the natural key, then upload them. */
  method ProcessFolder(names: seq<string>, folder: string, files: seq<string>, slug: string, upload: Uploader)
    returns (pageIds: seq<FileRef>)
    requires files == FilesIn(names, folder)
    ensures pageIds == FolderPages(names, folder, slug, upload)
  {
    var sorted := NaturalSorted(files);
    pageIds := UploadFiles(sorted, upload, Caption(slug, ExtractChapterNumber(folder)));
  }

  /** One round of the folder loop: `chapters_data[chapter_num] = page_file_ids` when there are pages. */
  method AddFolder(chapters: map<string, seq<FileRef>>, names: seq<string>, ghost done: seq<string>, folder: string,
                   files: seq<string>, slug: string, upload: Uploader)
    returns (updated: map<string, seq<FileRef>>)
    requires chapters == Assemble(done, ExtractChapterNumber, PagesOf(names, slug, upload))
    requires files == FilesIn(names, folder)
    ensures updated == Assemble(done + [folder], ExtractChapterNumber, PagesOf(names, slug, upload))
  {
    var num := ExtractChapterNumber(folder);
    var pageIds := ProcessFolder(names, folder, files, slug, upload);
    AssembleSnoc(done, folder, ExtractChapterNumber, PagesOf(names, slug, upload));
    updated := chapters;
    if pageIds != [] {
      updated := updated[num := pageIds];
    }
  }

  /** The folder loop: every folder in insertion order, each possibly overwriting an earlier one. */
  method AddFolders(names: seq<string>, order: seq<string>, groups: map<string, seq<string>>, slug: string, upload: Uploader)
    returns (chapters: map<string, seq<FileRef>>)
    requires forall f :: f in order ==> f in groups && groups[f] == FilesIn(names, f)
    ensures chapters == Assemble(order, ExtractChapterNumber, PagesOf(names, slug, upload))
  {
    chapters := map[];
    var j := 0;
    while j < |order|
      invariant 0 <= j <= |order|
      invariant chapters == Assemble(order[..j], ExtractChapterNumber, PagesOf(names, slug, upload))
    {
      var folder := order[j];
      chapters := AddFolder(chapters, names, order[..j], folder, groups[folder], slug, upload);
      TakeNext(order, j);
      j := j + 1;
    }
    TakeAll(order);
  }

  /** `process_zip_chapters`: group, then sort and upload each folder and keep the non-empty ones. */
  method ProcessZipChapters(archive: Archive, slug: string, upload: Uploader) returns (chapters: map<string, seq<FileRef>>)
    ensures chapters == ZipChapters(archive, slug, upload)
  {
    if archive.Unreadable? {
      return map[];
    }
    var order, groups := GroupByFolder(archive.names);
    chapters := AddFolders(archive.names, order, groups, slug, upload);
  }

  lemma TakeNext<T>(s: seq<T>, j: nat)
    requires j < |s|
    ensures s[..j] + [s[j]] == s[..j + 1]
  {
  }

  lemma TakeAll<T>(s: seq<T>)
    ensures s[..|s|] == s
  {
  }

  lemma AssembleSnoc(folders: seq<string>, folder: string, key: string -> string, pages: string -> seq<FileRef>)
    ensures Assemble(folders + [folder], key, pages) ==
      if pages(folder) == [] then Assemble(folders, key, pages)
      else Assemble(folders, key, pages)[key(folder) := pages(folder)]
  {
    assert (folders + [folder])[..|folders|] == folders;
  }

  /** A folder that no entry names has no files. */
  lemma {:induction false} FilesInOutsideFolders(names: seq<string>, folder: string)
    requires folder !in Folders(names)
    ensures FilesIn(names, folder) == []
  {
    if names != [] {
      FilesInOutsideFolders(names[..|names| - 1], folder);
    }
  }

  /** No chapter is stored without pages. */
  lemma {:induction false} AssembleNonEmpty(folders: seq<string>, key: string -> string, pages: string -> seq<FileRef>)
    ensures forall k :: k in Assemble(folders, key, pages) ==> Assemble(folders, key, pages)[k] != []
  {
    if folders != [] {
      AssembleNonEmpty(folders[..|folders| - 1], key, pages);
    }
  }

  /** Every stored chapter holds the pages of a folder whose key it is. */
  lemma {:induction false} AssembleFromFolders(folders: seq<string>, key: string -> string, pages: string -> seq<FileRef>, k: string)
    requires k in Assemble(folders, key, pages)
    ensures exists i :: 0 <= i < |folders| && key(folders[i]) == k && Assemble(folders, key, pages)[k] == pages(folders[i])
  {
    var last := |folders| - 1;
    var before := folders[..last];
    if pages(folders[last]) != [] && key(folders[last]) == k {
      assert key(folders[last]) == k && Assemble(folders, key, pages)[k] == pages(folders[last]);
    } else {
      AssembleFromFolders(before, key, pages, k);
      var i :| 0 <= i < |before| && key(before[i]) == k && Assemble(before, key, pages)[k] == pages(before[i]);
      assert folders[i] == before[i];
    }
  }

  /**
   * Two folders with the same key: the later one with pages wins, and a later
   * folder without pages does not remove an earlier chapter.
   */
  lemma {:induction false} AssembleLastWins(folders: seq<string>, key: string -> string, pages: string -> seq<FileRef>, i: nat)
    requires i < |folders| && pages(folders[i]) != []
    requires forall j :: i < j < |folders| && key(folders[j]) == key(folders[i]) ==> pages(folders[j]) == []
    ensures key(folders[i]) in Assemble(folders, key, pages)
    ensures Assemble(folders, key, pages)[key(folders[i])] == pages(folders[i])
  {
    var last := |folders| - 1;
    var before := folders[..last];
    if i < last {
      assert before[i] == folders[i];
      forall j | i < j < |before| && key(before[j]) == key(before[i])
        ensures pages(before[j]) == []
      {
        assert before[j] == folders[j];
      }
      AssembleLastWins(before, key, pages, i);
    }
  }

  /** The pages of a list of files in two parts are the pages of the first part, then those of the second. */
  lemma {:induction false} UploadAllAppend(a: seq<string>, b: seq<string>, upload: Uploader, caption: string)
    ensures UploadAll(a + b, upload, caption) == UploadAll(a, upload, caption) + UploadAll(b, upload, caption)
  {
    if b != [] {
      var b' := b[..|b| - 1];
      assert (a + b)[..|a + b| - 1] == a + b';
      assert (a + b)[|a + b| - 1] == b[|b| - 1];
      UploadAllAppend(a, b', upload, caption);
    } else {
      assert a + b == a;
    }
  }

  /**
   * Upload order is file order, and a file contributes its reference exactly
   * when it is an image and its upload succeeds: a failed upload is skipped.
   */
  lemma UploadAllInOrder(a: seq<string>, f: string, b: seq<string>, upload: Uploader, caption: string)
    ensures UploadAll(a + [f] + b, upload, caption) ==
      UploadAll(a, upload, caption) +
      (if IsImage(f) && upload(f, caption).Some? then [upload(f, caption).value] else []) +
      UploadAll(b, upload, caption)
  {
    UploadAllAppend(a + [f], b, upload, caption);
    UploadAllAppend(a, [f], upload, caption);
    assert [f][..0] == [];
  }

  /** Every reference comes from an image among the files whose upload returned it. */
  lemma {:induction false} UploadAllProvenance(files: seq<string>, upload: Uploader, caption: string, r: FileRef)
    requires r in UploadAll(files, upload, caption)
    ensures exists f :: f in files && IsImage(f) && upload(f, caption) == Some(r)
  {
    var last := files[|files| - 1];
    var before := files[..|files| - 1];
    if r in UploadAll(before, upload, caption) {
      UploadAllProvenance(before, upload, caption, r);
      var f :| f in before && IsImage(f) && upload(f, caption) == Some(r);
      assert f in files;
    } else {
      assert IsImage(last) && upload(last, caption) == Some(r);
    }
  }

  /** The files grouped under a folder are entries of the archive inside that folder. */
  lemma {:induction false} FilesInProvenance(names: seq<string>, folder: string, f: string)
    requires f in FilesIn(names, folder)
    ensures f in names && InDirectory(f) && FolderOf(f) == folder
  {
    var before := names[..|names| - 1];
    if f in FilesIn(before, folder) {
      FilesInProvenance(before, folder, f);
    }
  }

  /**
   * Every stored page came from an image entry inside a directory whose
   * folder has the chapter's key, uploaded with that chapter's caption.
   */
  lemma PageProvenance(archive: Archive, slug: string, upload: Uploader, k: string, r: FileRef)
    requires k in ZipChapters(archive, slug, upload) && r in ZipChapters(archive, slug, upload)[k]
    ensures archive.Entries?
    ensures exists p :: (p in archive.names && InDirectory(p) && IsImage(p) &&
      ExtractChapterNumber(FolderOf(p)) == k && upload(p, Caption(slug, k)) == Some(r))
  {
    var names := archive.names;
    var folders := Folders(names);
    AssembleFromFolders(folders, ExtractChapterNumber, PagesOf(names, slug, upload), k);
    var i :| 0 <= i < |folders| && ExtractChapterNumber(folders[i]) == k &&
      ZipChapters(archive, slug, upload)[k] == FolderPages(names, folders[i], slug, upload);
    var files := FilesIn(names, folders[i]);
    UploadAllProvenance(NaturalSorted(files), upload, Caption(slug, k), r);
    var p :| p in NaturalSorted(files) && IsImage(p) && upload(p, Caption(slug, k)) == Some(r);
    NaturalSortedCorrect(files);
    assert p in multiset(NaturalSorted(files));
    FilesInProvenance(names, folders[i], p);
  }

  /** Of the folders sharing a chapter key, the last one with pages provides the chapter. */
  lemma ZipChaptersLastWins(names: seq<string>, slug: string, upload: Uploader, i: nat)
    requires i < |Folders(names)| && FolderPages(names, Folders(names)[i], slug, upload) != []
    requires forall j :: (i < j < |Folders(names)| &&
      ExtractChapterNumber(Folders(names)[j]) == ExtractChapterNumber(Folders(names)[i])) ==>
      FolderPages(names, Folders(names)[j], slug, upload) == []
    ensures ExtractChapterNumber(Folders(names)[i]) in ZipChapters(Entries(names), slug, upload)
    ensures ZipChapters(Entries(names), slug, upload)[ExtractChapterNumber(Folders(names)[i])] ==
      FolderPages(names, Folders(names)[i], slug, upload)
  {
    AssembleLastWins(Folders(names), ExtractChapterNumber, PagesOf(names, slug, upload), i);
  }

  lemma {:induction false} AssembleSamePages(folders: seq<string>, key: string -> string, p: string -> seq<FileRef>, q: string -> seq<FileRef>)
    requires forall f :: f in folders ==> p(f) == q(f)
    ensures Assemble(folders, key, p) == Assemble(folders, key, q)
  {
    if folders != [] {
      var before := folders[..|folders| - 1];
      assert forall f :: f in before ==> f in folders;
      AssembleSamePages(before, key, p, q);
    }
  }

  lemma DropLastOfJoin(a: seq<string>, p: string, b: seq<string>)
    requires b != []
    ensures (a + [p] + b)[..|a + [p] + b| - 1] == a + [p] + b[..|b| - 1]
    ensures (a + b)[..|a + b| - 1] == a + b[..|b| - 1]
    ensures (a + [p] + b)[|a + [p] + b| - 1] == b[|b| - 1] && (a + b)[|a + b| - 1] == b[|b| - 1]
  {
  }

  /** An entry that is not a file inside a directory changes neither the folders nor their files. */
  lemma {:induction false} OutsideEntryIgnored(a: seq<string>, p: string, b: seq<string>)
    requires !InDirectory(p)
    ensures Folders(a + [p] + b) == Folders(a + b)
    ensures forall f :: FilesIn(a + [p] + b, f) == FilesIn(a + b, f)
    decreases |b|
  {
    if b == [] {
      assert (a + [p])[..|a|] == a;
      assert a + [p] + b == a + [p] && a + b == a;
    } else {
      DropLastOfJoin(a, p, b);
      OutsideEntryIgnored(a, p, b[..|b| - 1]);
    }
  }

  /**
   * Top-level files and directory entries contribute nothing: removing one
   * from anywhere in the archive leaves the result unchanged.
   */
  lemma TopLevelEntriesIgnored(a: seq<string>, p: string, b: seq<string>, slug: string, upload: Uploader)
    requires !InDirectory(p)
    ensures ZipChapters(Entries(a + [p] + b), slug, upload) == ZipChapters(Entries(a + b), slug, upload)
  {
    OutsideEntryIgnored(a, p, b);
    var with, without := a + [p] + b, a + b;
    forall f | f in Folders(without)
      ensures PagesOf(with, slug, upload)(f) == PagesOf(without, slug, upload)(f)
    {
      assert FilesIn(with, f) == FilesIn(without, f);
    }
    AssembleSamePages(Folders(without), ExtractChapterNumber, PagesOf(with, slug, upload), PagesOf(without, slug, upload));
  }
}
