/** The hidden-contacts screen: listing the contact records kept in the vault
    and restoring one of them to the address book. */
module ContatosCofreScreen {
  import opened Wrappers
  import opened Platform
  import Text
  import ContatosScreen

  /** A parsed vault record with its `cofrePath` attached. */
  datatype VaultContact = VaultContact(record: Contact, cofrePath: Path)

  /** `files.filter(f => f.endsWith('.json'))`: case-sensitive, in order. */
  function ContactFiles(files: seq<string>): (r: seq<string>)
    ensures |r| <= |files|
    ensures forall f :: f in r <==> f in files && Text.EndsWith(f, ".json")
  {
    if files == [] then []
    else (if Text.EndsWith(files[0], ".json") then [files[0]] else []) + ContactFiles(files[1..])
  }

  /** The filter keeps directory order: filtering a listing is filtering its
      two halves and joining the results. */
  lemma {:induction false} ContactFilesAppend(a: seq<string>, b: seq<string>)
    ensures ContactFiles(a + b) == ContactFiles(a) + ContactFiles(b)
  {
    if a == [] {
      assert a + b == b;
    } else {
      assert (a + b)[0] == a[0];
      assert (a + b)[1..] == a[1..] + b;
      ContactFilesAppend(a[1..], b);
    }
  }

  /** Only the lower-case extension counts. */
  lemma ContactFilesCaseSensitive()
    ensures ContactFiles(["a.JSON", "b.json", "c.mp4"]) == ["b.json"]
  {
    assert !Text.EndsWith("a.JSON", ".json");
    assert Text.EndsWith("b.json", ".json");
    assert !Text.EndsWith("c.mp4", ".json");
    assert ["a.JSON", "b.json", "c.mp4"][1..] == ["b.json", "c.mp4"];
    assert ["b.json", "c.mp4"][1..] == ["c.mp4"];
  }

  /** Reading and parsing one vault file; `None` is the case the loop's
      `catch` skips. */
  function LoadOne(disk: Disk, codec: Codec, readFaults: set<string>, name: string): (r: Option<VaultContact>)
    ensures r.Some? ==>
      && name !in readFaults
      && r.value.cofrePath == disk.vaultDir + name
      && disk.Lookup(r.value.cofrePath).Some?
      && codec.parse(disk.Lookup(r.value.cofrePath).value) == Some(r.value.record)
    ensures r.None? ==>
      || name in readFaults
      || disk.Lookup(disk.vaultDir + name).None?
      || codec.parse(disk.Lookup(disk.vaultDir + name).value).None?
  {
    var path := disk.vaultDir + name;
    if name in readFaults then None
    else match disk.Lookup(path)
      case None => None
      case Some(text) =>
        match codec.parse(text)
        case None => None
        case Some(c) => Some(VaultContact(c, path))
  }

  /** The records the loop collects from `names`, in order. */
  function LoadAll(disk: Disk, codec: Codec, readFaults: set<string>, names: seq<string>): (r: seq<VaultContact>)
    ensures forall v :: v in r ==> Text.StartsWith(v.cofrePath, disk.vaultDir)
  {
    if names == [] then []
    else
      var prev := LoadAll(disk, codec, readFaults, names[..|names| - 1]);
      match LoadOne(disk, codec, readFaults, names[|names| - 1])
      case None => prev
      case Some(v) => prev + [v]
  }

  /** No more records than files. */
  lemma {:induction false} LoadAllBound(disk: Disk, codec: Codec, readFaults: set<string>, names: seq<string>)
    ensures |LoadAll(disk, codec, readFaults, names)| <= |names|
  {
    if names != [] {
      LoadAllBound(disk, codec, readFaults, names[..|names| - 1]);
    }
  }

  /** Loading splits over the directory order: a bad file never disturbs the
      records before or after it. */
  lemma {:induction false} LoadAllAppend(disk: Disk, codec: Codec, readFaults: set<string>, a: seq<string>, b: seq<string>)
    ensures LoadAll(disk, codec, readFaults, a + b) == LoadAll(disk, codec, readFaults, a) + LoadAll(disk, codec, readFaults, b)
  {
    if b == [] {
      assert a + b == a;
    } else {
      var b' := b[..|b| - 1];
      assert (a + b)[..|a + b| - 1] == a + b';
      assert (a + b)[|a + b| - 1] == b[|b| - 1];
      LoadAllAppend(disk, codec, readFaults, a, b');
    }
  }

  /** Exactly the files that read and parse become records. */
  lemma {:induction false} LoadAllMembers(disk: Disk, codec: Codec, readFaults: set<string>, names: seq<string>, v: VaultContact)
    ensures v in LoadAll(disk, codec, readFaults, names) <==>
      exists n :: n in names && LoadOne(disk, codec, readFaults, n) == Some(v)
  {
    if names != [] {
      var p := names[..|names| - 1];
      var last := names[|names| - 1];
      assert names == p + [last];
      LoadAllMembers(disk, codec, readFaults, p, v);
      if LoadOne(disk, codec, readFaults, last) == Some(v) {
        assert last in names;
      }
    }
  }

  datatype LoadResult =
    | Loaded(contacts: seq<VaultContact>)   // `setCofreContacts(...)`
    | LoadFailed                            // "Erro": the list keeps its old value

  /** `loadCofreContacts()`, with `listing` the names `readDirectoryAsync`
      returns: an absent vault gives an empty list, otherwise each `.json`
      file is read and parsed and the ones that fail are skipped. */
  method LoadCofreContacts(dev: Device, listing: seq<string>, codec: Codec, faults: ListFaults, readFaults: set<string>)
    returns (r: LoadResult)
    requires dev.disk.vaultExists ==> IsListingOf(listing, dev.disk.vault.Keys)
    ensures r == LoadFailed <==> faults.infoFault || (dev.disk.vaultExists && faults.readDirFault)
    ensures !faults.infoFault && !dev.disk.vaultExists ==> r == Loaded([])
    ensures r.Loaded? && dev.disk.vaultExists ==>
      r.contacts == LoadAll(dev.disk, codec, readFaults, ContactFiles(listing))
  {
    if faults.infoFault {
      return LoadFailed;
    }
    if !dev.disk.vaultExists {
      return Loaded([]);
    }
    if faults.readDirFault {
      return LoadFailed;
    }
    var contactFiles := ContactFiles(listing);
    var loadedContacts := [];
    for i := 0 to |contactFiles|
      invariant loadedContacts == LoadAll(dev.disk, codec, readFaults, contactFiles[..i])
    {
      var fileName := contactFiles[i];
      assert contactFiles[..i + 1][..i] == contactFiles[..i];
      var filePath := dev.disk.vaultDir + fileName;
      if fileName in readFaults {
        continue;
      }
      var content := dev.disk.Lookup(filePath);
      if content.None? {
        continue;
      }
      var contactData := codec.parse(content.value);
      if contactData.None? {
        continue;
      }
      loadedContacts := loadedContacts + [VaultContact(contactData.value, filePath)];
    }
    assert contactFiles[..|contactFiles|] == contactFiles;
    r := Loaded(loadedContacts);
  }

  /** A contact the bulk hide wrote to the vault comes back, as the same
      record, from the next listing of that vault. */
  lemma HiddenContactReloads(env: ContatosScreen.HideEnv, disk: Disk, oldVault: map<string, Content>,
                             ids: seq<string>, id: string, listing: seq<string>, readFaults: set<string>)
    requires env.codec.RoundTrips()
    requires disk.vault == ContatosScreen.VaultAfter(env, oldVault, ids)
    requires id in ids && env.Outcome(id).Written()
    requires IsListingOf(listing, disk.vault.Keys)
    requires ContatosScreen.BackupName(id) !in readFaults
    ensures ContatosScreen.Find(env.contacts, id).Some?
    ensures VaultContact(ContatosScreen.Find(env.contacts, id).value, disk.vaultDir + ContatosScreen.BackupName(id))
      in LoadAll(disk, env.codec, readFaults, ContactFiles(listing))
  {
    var name := ContatosScreen.BackupName(id);
    var c := ContatosScreen.Find(env.contacts, id).value;
    ContatosScreen.VaultAfterBackup(env, oldVault, ids, id);
    ContatosScreen.BackupNameLocation(disk.vaultDir, id);
    LookupVaultEntry(disk, name);
    assert disk.Lookup(disk.vaultDir + name) == Some(env.codec.stringify(c));
    assert LoadOne(disk, env.codec, readFaults, name) == Some(VaultContact(c, disk.vaultDir + name));
    assert name[|name| - 5..] == ".json";
    assert name in ContactFiles(listing);
    LoadAllMembers(disk, env.codec, readFaults, ContactFiles(listing), VaultContact(c, disk.vaultDir + name));
  }

  datatype RestoreNotice =
    | RestoreCancelled   // the confirmation was dismissed
    | Restored           // "Sucesso", then the list is reloaded
    | RestoreFailed      // "Erro de Restauração"

  /** `handleRestoreContact(contact)`, with the confirmation's answer as
      `confirmed` and `freshId` the id the address book will assign: drop the
      record's id, create the contact, and only then delete its vault file. */
  method HandleRestoreContact(dev: Device, contact: VaultContact, confirmed: bool, freshId: string, addFault: bool, deleteFault: bool)
    returns (n: RestoreNotice)
    requires dev.disk.Valid() && freshId !in dev.book
    modifies dev
    ensures dev.disk.Valid() && dev.secure == old(dev.secure)
    ensures n == RestoreCancelled <==> !confirmed
    ensures n == Restored <==>
      confirmed && !addFault && !deleteFault && old(dev.disk.Lookup(contact.cofrePath)).Some?
    // the old id is dropped: the address book files the record under its own new id
    ensures confirmed && !addFault ==> dev.book == old(dev.book)[freshId := contact.record.(id := Some(freshId))]
    ensures !(confirmed && !addFault) ==> dev.book == old(dev.book)
    ensures n == Restored ==> dev.disk == old(dev.disk).Remove(contact.cofrePath)
    ensures n != Restored ==> dev.disk == old(dev.disk)
    // create before delete: the vault file goes only once the contact is back
    ensures old(dev.disk.Lookup(contact.cofrePath)).Some? && dev.disk.Lookup(contact.cofrePath).None? ==>
      freshId in dev.book && dev.book[freshId].name == contact.record.name
      && dev.book[freshId].phoneNumbers == contact.record.phoneNumbers
  {
    if !confirmed {
      return RestoreCancelled;
    }
    var record := contact.record.(id := None);
    var ok := dev.AddContact(record, freshId, addFault);
    if !ok {
      return RestoreFailed;
    }
    ok := dev.Delete(contact.cofrePath, deleteFault);
    if !ok {
      return RestoreFailed;
    }
    n := Restored;
  }
}
