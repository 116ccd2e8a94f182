/** The vault gallery: every file in the vault as a tile, classified as photo
    or video by its extension, and deletion of a single file. */
module CofreGalleryScreen {
  import opened Wrappers
  import opened Platform
  import Text
  import ContatosScreen

  datatype MediaKind = Photo | Video

  /** One entry of `mediaList`. */
  datatype MediaItem = MediaItem(id: string, uri: Path, name: string, kind: MediaKind)

  /** The lower-cased name ends with `.mov` or `.mp4`. */
  predicate IsVideoName(fileName: string)
    ensures IsVideoName(fileName) ==> |fileName| >= 4
  {
    var lower := Text.ToLower(fileName);
    Text.EndsWith(lower, ".mov") || Text.EndsWith(lower, ".mp4")
  }

  /** `files.map(...)` over the names `readDirectoryAsync` returned: one item
      per name, in the same order, none dropped. */
  function MediaList(vaultDir: Path, files: seq<string>): (items: seq<MediaItem>)
    ensures |items| == |files|
    ensures forall i :: 0 <= i < |files| ==>
      && items[i].id == files[i] && items[i].name == files[i]
      && items[i].uri == vaultDir + files[i]
      && (items[i].kind == Video <==> IsVideoName(files[i]))
  {
    if files == [] then []
    else
      var fileName := files[0];
      [MediaItem(fileName, vaultDir + fileName, fileName, if IsVideoName(fileName) then Video else Photo)]
        + MediaList(vaultDir, files[1..])
  }

  /** `loadCofreMedia()`: `None` is the "Erro de Leitura" case, where the
      shown list keeps its old value; an absent vault shows nothing.
      `listing` is what `readDirectoryAsync` returns for the vault. */
  function LoadCofreMedia(disk: Disk, listing: seq<string>, faults: ListFaults): (r: Option<seq<MediaItem>>)
    requires disk.vaultExists ==> IsListingOf(listing, disk.vault.Keys)
    ensures r.None? <==> faults.infoFault || (disk.vaultExists && faults.readDirFault)
    ensures r.Some? && !disk.vaultExists ==> r.value == []
    ensures r.Some? && disk.vaultExists ==> r.value == MediaList(disk.vaultDir, listing)
  {
    if faults.infoFault then None
    else if !disk.vaultExists then Some([])
    else if faults.readDirFault then None
    else Some(MediaList(disk.vaultDir, listing))
  }

  /** Classification looks only at the lower-cased name. */
  lemma ClassificationIgnoresCase(fileName: string)
    ensures IsVideoName(Text.ToLower(fileName)) == IsVideoName(fileName)
  {
    Text.ToLowerIdempotent(fileName);
  }

  /** Only the last four characters decide, in any case: `.mp4`, `.MP4`,
      `.Mov` and so on are videos. */
  lemma ExtensionDecides(stem: string, ext: string)
    requires |ext| == 4
    ensures IsVideoName(stem + ext) <==> Text.ToLower(ext) == ".mov" || Text.ToLower(ext) == ".mp4"
  {
    Text.ToLowerAppend(stem, ext);
    var lower := Text.ToLower(stem + ext);
    assert lower[|lower| - 4..] == Text.ToLower(ext);
  }

  lemma LowerExtensions()
    ensures Text.ToLower(".MP4") == ".mp4" && Text.ToLower(".jpg") == ".jpg"
  {
    var u := Text.ToLower(".MP4");
    assert u[1] == 'm' && u[2] == 'p';
    Text.ToLowerOfLowerCase(".jpg");
  }

  lemma UpperCaseVideo()
    ensures IsVideoName("clip.MP4") && !IsVideoName("foto.jpg")
  {
    LowerExtensions();
    assert "clip.MP4" == "clip" + ".MP4";
    ExtensionDecides("clip", ".MP4");
    assert "foto.jpg" == "foto" + ".jpg";
    ExtensionDecides("foto", ".jpg");
  }

  /** Contact backups are not filtered out of the gallery: they show as
      photos. */
  lemma ContactBackupShownAsPhoto(id: string)
    ensures !IsVideoName(ContatosScreen.BackupName(id))
  {
    var stem := "contato_" + id;
    assert ContatosScreen.BackupName(id) == stem + ".json";
    Text.ToLowerAppend(stem, ".json");
    assert Text.ToLower(".json") == ".json";
    var lower := Text.ToLower(ContatosScreen.BackupName(id));
    assert lower[|lower| - 4..] == "json";
  }

  /** Every file in the vault appears exactly once in the listed gallery. */
  lemma EachVaultFileShownOnce(disk: Disk, listing: seq<string>, name: string)
    requires disk.vaultExists && IsListingOf(listing, disk.vault.Keys) && name in disk.vault
    ensures exists i :: 0 <= i < |listing| && MediaList(disk.vaultDir, listing)[i].id == name
    ensures forall i, j ::
      0 <= i < |listing| && 0 <= j < |listing| &&
      MediaList(disk.vaultDir, listing)[i].id == name && MediaList(disk.vaultDir, listing)[j].id == name
      ==> i == j
  {
    var items := MediaList(disk.vaultDir, listing);
    assert name in listing;
    var k :| 0 <= k < |listing| && listing[k] == name;
    assert 0 <= k < |items| && items[k].id == name;
    assert exists i :: 0 <= i < |items| && items[i].id == name;
  }

  datatype DeleteNotice =
    | DeleteCancelled   // the confirmation was dismissed
    | MediaDeleted      // "Sucesso", then the list is reloaded
    | DeleteFailed      // "Erro"; the list is not reloaded

  /** `deleteMedia(item)`, with the confirmation's answer as `confirmed`:
      delete exactly `item.uri`, then reload the list. `listingAfter` and
      `reloadFaults` are what the reload's directory calls return. `shown` is
      the list the reload sets, `None` when nothing is reloaded. */
  method DeleteMedia(dev: Device, item: MediaItem, confirmed: bool, deleteFault: bool,
                     listingAfter: seq<string>, reloadFaults: ListFaults)
    returns (n: DeleteNotice, shown: Option<seq<MediaItem>>)
    requires dev.disk.Valid()
    requires dev.disk.vaultExists ==> IsListingOf(listingAfter, dev.disk.Remove(item.uri).vault.Keys)
    modifies dev
    ensures dev.disk.Valid() && dev.book == old(dev.book) && dev.secure == old(dev.secure)
    ensures n == DeleteCancelled <==> !confirmed
    ensures n == MediaDeleted <==> confirmed && !deleteFault && old(dev.disk.Lookup(item.uri)).Some?
    ensures n == MediaDeleted ==> dev.disk == old(dev.disk.Remove(item.uri))
    ensures n == MediaDeleted ==>
      && dev.disk.Lookup(item.uri) == None
      && (forall q :: q != item.uri ==> dev.disk.Lookup(q) == old(dev.disk.Lookup(q)))
      && shown == LoadCofreMedia(dev.disk, listingAfter, reloadFaults)
    ensures n != MediaDeleted ==> dev.disk == old(dev.disk) && shown == None
  {
    if !confirmed {
      return DeleteCancelled, None;
    }
    var ok := dev.Delete(item.uri, deleteFault);
    if !ok {
      return DeleteFailed, None;
    }
    n := MediaDeleted;
    shown := LoadCofreMedia(dev.disk, listingAfter, reloadFaults);
  }

  /** After deleting a gallery item, the reloaded gallery no longer shows it. */
  lemma DeletedItemNotShown(disk: Disk, fileName: string, listing: seq<string>, faults: ListFaults)
    requires disk.Valid() && IsEntryName(fileName)
    requires IsListingOf(listing, disk.Remove(disk.vaultDir + fileName).vault.Keys)
    requires LoadCofreMedia(disk.Remove(disk.vaultDir + fileName), listing, faults).Some?
    ensures forall m :: m in LoadCofreMedia(disk.Remove(disk.vaultDir + fileName), listing, faults).value ==>
      m.id != fileName
  {
    LocateJoin(disk.vaultDir, fileName);
    var after := disk.Remove(disk.vaultDir + fileName);
    assert after.vault == disk.vault - {fileName};
    var items := LoadCofreMedia(after, listing, faults).value;
    forall m | m in items
      ensures m.id != fileName
    {
      var i :| 0 <= i < |items| && items[i] == m;
      if after.vaultExists {
        assert m.id == listing[i];
      }
    }
  }
}
