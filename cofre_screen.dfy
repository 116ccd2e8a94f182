/** The vault screen's handlers: hiding a captured or picked media file in the
    vault, purging the vault, and the backup export and import stubs. */
module CofreScreen {
  import opened Wrappers
  import opened Platform
  import Text

  /** The backup artifact's file name in the cache directory. */
  const BackupFileName: string := "AgendaSegura_Backup_Seguro.txt"

  /** The text the export writes in place of a real backup. */
  const BackupPlaceholder: string := "Este arquivo simula o backup criptografado do seu cofre."

  /** The alert each handler ends with. */
  datatype Notice =
    | MediaSaved(mediaType: string)          // "Sucesso!": `${mediaType} salvo e escondido no cofre!`
    | MediaSaveFailed(mediaType: string)     // "Erro de Salvamento", with the lower-cased media type
    | VaultPurged                            // "Sucesso!": everything permanently deleted
    | VaultAlreadyEmpty                      // "Aviso": the vault is already empty
    | PurgeFailed                            // "Erro de Exclusão"
    | BackupReady(path: Path)                // "Backup Pronto!", offering to share `path`
    | SharingUnavailable                     // "Erro": file sharing not available
    | ExportFailed                           // "Erro": export failed
    | ImportPending                          // "Funcionalidade Pendente"

  /** Where a hidden file goes: the vault directory joined with the last
      `/`-separated segment of the source URI. */
  function HiddenPath(vaultDir: Path, localUri: Path): (p: Path)
    ensures Text.LastSegment(localUri) != [] ==> Locate(vaultDir, p) == InVault(Text.LastSegment(localUri))
    ensures Text.LastSegment(localUri) == [] ==> Locate(vaultDir, p) == VaultRoot
  {
    LocateJoin(vaultDir, Text.LastSegment(localUri));
    vaultDir + Text.LastSegment(localUri)
  }

  /** A file already in the vault keeps its name when hidden again. */
  lemma HiddenPathOfVaultFile(vaultDir: Path, name: string)
    requires Text.EndsWith(vaultDir, "/") && IsEntryName(name)
    ensures HiddenPath(vaultDir, vaultDir + name) == vaultDir + name
  {
    Text.LastSegmentOfJoin(vaultDir, name);
  }

  /** `saveMediaToCofre(localUri, mediaType)`: ensure the vault directory, then
      move the file into it under its own last segment. Any failure is caught
      and reported; nothing is rethrown. */
  method SaveMediaToCofre(dev: Device, localUri: Path, mediaType: string, mkdirFault: bool, moveFault: bool)
    returns (n: Notice)
    requires dev.disk.Valid()
    modifies dev
    ensures dev.disk.Valid() && dev.book == old(dev.book) && dev.secure == old(dev.secure)
    ensures n == MediaSaved(mediaType) || n == MediaSaveFailed(Text.ToLower(mediaType))
    ensures n.MediaSaved? <==>
      !mkdirFault && !moveFault && old(dev.disk.Lookup(localUri)).Some? && Text.LastSegment(localUri) != []
    // the directory is ensured before the move is attempted, and stays
    ensures !mkdirFault ==> dev.disk.vaultExists
    ensures mkdirFault ==> dev.disk == old(dev.disk)
    // a failed move changes no file
    ensures n.MediaSaveFailed? ==> dev.disk.vault == old(dev.disk.vault) && dev.disk.others == old(dev.disk.others)
    // a move, not a copy: the vault gains the file and the source loses it
    ensures n.MediaSaved? ==>
      var dest := HiddenPath(dev.disk.vaultDir, localUri);
      && dev.disk.Lookup(dest) == old(dev.disk.Lookup(localUri))
      && (localUri != dest ==> dev.disk.Lookup(localUri) == None)
      && forall q :: q != dest && q != localUri ==> dev.disk.Lookup(q) == old(dev.disk.Lookup(q))
  {
    ghost var d0 := dev.disk;
    var ok := dev.MakeVaultDirectory(mkdirFault);
    if !ok {
      return MediaSaveFailed(Text.ToLower(mediaType));
    }
    MakeDirectoryKeepsFiles(d0);
    ghost var d1 := dev.disk;
    var newPath := HiddenPath(dev.disk.vaultDir, localUri);
    ok := dev.Move(localUri, newPath, moveFault);
    if !ok {
      return MediaSaveFailed(Text.ToLower(mediaType));
    }
    MoveLookups(d1, localUri, newPath);
    n := MediaSaved(mediaType);
  }

  /** `deleteCofreContent()`: remove the whole vault when it exists; otherwise
      say it is already empty. */
  method DeleteCofreContent(dev: Device, infoFault: bool, deleteFault: bool) returns (n: Notice)
    requires dev.disk.Valid()
    modifies dev
    ensures dev.disk.Valid() && dev.book == old(dev.book) && dev.secure == old(dev.secure)
    ensures n == VaultPurged || n == VaultAlreadyEmpty || n == PurgeFailed
    ensures n == VaultAlreadyEmpty <==> !infoFault && !old(dev.disk.vaultExists)
    ensures n == VaultPurged <==> !infoFault && !deleteFault && old(dev.disk.vaultExists)
    // a purge leaves no vault and no vault file, and touches nothing else
    ensures n == VaultPurged ==>
      && !dev.disk.vaultExists && dev.disk.vault == map[]
      && dev.disk.others == old(dev.disk.others)
    ensures n != VaultPurged ==> dev.disk == old(dev.disk)
  {
    if infoFault {
      return PurgeFailed;
    }
    if !dev.disk.vaultExists {
      return VaultAlreadyEmpty;
    }
    var ok := dev.DeleteVault(deleteFault);
    n := if ok then VaultPurged else PurgeFailed;
  }

  /** Where the export writes its artifact. */
  function BackupPath(cacheDirectory: Path): (p: Path)
    ensures Text.StartsWith(p, cacheDirectory) && Text.EndsWith(p, BackupFileName)
  {
    cacheDirectory + BackupFileName
  }

  /** `exportCofreContent()`: write the placeholder artifact to the cache
      directory, then ask whether sharing is available; that question can
      itself throw (`sharingFault`), after the file is written. */
  method ExportCofreContent(dev: Device, cacheDirectory: Path, writeFault: bool, sharingFault: bool, sharingAvailable: bool)
    returns (n: Notice)
    requires dev.disk.Valid()
    requires Locate(dev.disk.vaultDir, BackupPath(cacheDirectory)) == Outside
    modifies dev
    ensures dev.disk.Valid() && dev.book == old(dev.book) && dev.secure == old(dev.secure)
    ensures n == ExportFailed <==> writeFault || sharingFault
    ensures n == SharingUnavailable <==> !writeFault && !sharingFault && !sharingAvailable
    ensures n == BackupReady(BackupPath(cacheDirectory)) <==> !writeFault && !sharingFault && sharingAvailable
    // the vault itself is never read or changed
    ensures dev.disk.vaultExists == old(dev.disk.vaultExists) && dev.disk.vault == old(dev.disk.vault)
    // the artifact holds the placeholder whatever the vault holds and whatever sharing then does
    ensures !writeFault ==> dev.disk.Lookup(BackupPath(cacheDirectory)) == Some(BackupPlaceholder)
    ensures forall q :: q != BackupPath(cacheDirectory) ==> dev.disk.Lookup(q) == old(dev.disk.Lookup(q))
  {
    var backupPath := BackupPath(cacheDirectory);
    var ok := dev.WriteText(backupPath, BackupPlaceholder, writeFault);
    if !ok || sharingFault {
      return ExportFailed;
    }
    if !sharingAvailable {
      return SharingUnavailable;
    }
    n := BackupReady(backupPath);
  }

  /** `importCofreContent()`: a pending-feature alert. It takes no device, so
      it changes nothing. */
  method ImportCofreContent() returns (n: Notice)
    ensures n == ImportPending
  {
    n := ImportPending;
  }
}
