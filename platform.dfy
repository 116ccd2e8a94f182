/** The device state the screens work on, and the library calls they make on
    it. The file system (expo-file-system), the address book (expo-contacts)
    and the secure store (expo-secure-store) are finite maps; every call that
    can throw takes a `fault` flag saying whether this call fails for a reason
    the code cannot see (permission, full device, provider error). */
module Platform {
  import opened Wrappers
  import Text

  type Path = string
  type Content = string

  /** The vault folder under the app's document directory: `COFRE_DIR` is
      `${FileSystem.documentDirectory}CofreSeguro/`. */
  const VaultFolder: string := "CofreSeguro/"

  function VaultDirOf(documentDirectory: Path): (dir: Path)
    ensures Text.EndsWith(dir, "/")
    ensures Text.StartsWith(dir, documentDirectory)
  {
    documentDirectory + VaultFolder
  }

  /** A name that can sit directly in a directory: not empty, no separator. */
  predicate IsEntryName(n: string) {
    n != [] && '/' !in n
  }

  /** Where a path falls relative to the vault directory. */
  datatype Location = InVault(name: string) | VaultRoot | Nested | Outside

  function Locate(vaultDir: Path, p: Path): (loc: Location)
    ensures loc.InVault? ==> IsEntryName(loc.name) && p == vaultDir + loc.name
    ensures loc == VaultRoot <==> p == vaultDir
    ensures loc == Outside <==> !Text.StartsWith(p, vaultDir)
  {
    if Text.StartsWith(p, vaultDir) then
      var rest := p[|vaultDir|..];
      assert p == vaultDir + rest;
      if rest == [] then VaultRoot
      else if '/' in rest then Nested
      else InVault(rest)
    else Outside
  }

  /** The vault directory joined with a name lands on that name. */
  lemma LocateJoin(vaultDir: Path, n: string)
    ensures Locate(vaultDir, vaultDir + n) ==
      if n == [] then VaultRoot else if '/' in n then Nested else InVault(n)
  {
    assert (vaultDir + n)[..|vaultDir|] == vaultDir;
    assert (vaultDir + n)[|vaultDir|..] == n;
  }

  /** The file system as the screens see it: the vault directory (whether it
      exists, and the files directly in it by name) and every other file on
      the device by full path. */
  datatype Disk = Disk(vaultDir: Path, vaultExists: bool, vault: map<string, Content>, others: map<Path, Content>)
  {
    /** The vault holds files only while it exists, it is flat, and no other
        file lies under it. */
    ghost predicate Valid() {
      && (!vaultExists ==> vault == map[])
      && (forall n :: n in vault ==> IsEntryName(n))
      && (forall p :: p in others ==> Locate(vaultDir, p) == Outside)
    }

    /** What reading the file at `p` yields, if there is one. */
    function Lookup(p: Path): Option<Content> {
      match Locate(vaultDir, p)
      case InVault(n) => if n in vault then Some(vault[n]) else None
      case Outside => if p in others then Some(others[p]) else None
      case _ => None
    }

    /** The directory a file at `p` would go in exists. */
    predicate CanCreate(p: Path) {
      match Locate(vaultDir, p)
      case InVault(_) => vaultExists
      case Outside => true
      case _ => false
    }

    /** The disk after a file with content `c` is written at `p`. */
    function Put(p: Path, c: Content): (d: Disk)
      requires CanCreate(p)
      ensures d.Lookup(p) == Some(c)
      ensures forall q :: q != p ==> d.Lookup(q) == Lookup(q)
      ensures d.vaultDir == vaultDir && d.vaultExists == vaultExists
      ensures Valid() ==> d.Valid()
    {
      match Locate(vaultDir, p)
      case InVault(n) => this.(vault := vault[n := c])
      case Outside => this.(others := others[p := c])
    }

    /** The disk after the file at `p`, if any, is deleted. */
    function Remove(p: Path): (d: Disk)
      ensures d.Lookup(p) == None
      ensures forall q :: q != p ==> d.Lookup(q) == Lookup(q)
      ensures d.vaultDir == vaultDir && d.vaultExists == vaultExists
      ensures Valid() ==> d.Valid()
    {
      match Locate(vaultDir, p)
      case InVault(n) => this.(vault := vault - {n})
      case Outside => this.(others := others - {p})
      case _ => this
    }
  }

  /** Creating the vault directory changes no file. */
  lemma MakeDirectoryKeepsFiles(d: Disk)
    ensures forall q :: d.(vaultExists := true).Lookup(q) == d.Lookup(q)
  {
  }

  /** A move leaves the content at the target, nothing at the source, and
      every other path as it was. */
  lemma MoveLookups(d: Disk, from: Path, to: Path)
    requires d.Lookup(from).Some? && d.CanCreate(to)
    ensures d.Remove(from).Put(to, d.Lookup(from).value).Lookup(to) == d.Lookup(from)
    ensures from != to ==> d.Remove(from).Put(to, d.Lookup(from).value).Lookup(from) == None
    ensures forall q :: q != to && q != from ==> d.Remove(from).Put(to, d.Lookup(from).value).Lookup(q) == d.Lookup(q)
  {
    var r := d.Remove(from);
    assert r.CanCreate(to);
  }

  /** A vault file is read under the vault directory joined with its name. */
  lemma LookupVaultEntry(d: Disk, n: string)
    requires IsEntryName(n)
    ensures d.Lookup(d.vaultDir + n) == if n in d.vault then Some(d.vault[n]) else None
  {
    LocateJoin(d.vaultDir, n);
  }

  /** An address-book entry as `Contacts.getContactsAsync` returns it with the
      name and phone-number fields; the address book assigns `id`. */
  datatype Contact = Contact(id: Option<string>, name: string, phoneNumbers: seq<string>)

  /** `JSON.stringify` and `JSON.parse` of a contact record. The text format is
      not fixed; parsing may fail on any text. */
  datatype Codec = Codec(stringify: Contact -> Content, parse: Content -> Option<Contact>)
  {
    /** What JSON guarantees for plain records of strings. */
    ghost predicate RoundTrips() {
      forall c :: parse(stringify(c)) == Some(c)
    }
  }

  /** The whole device: file system, address book and secure store. */
  class Device {
    var disk: Disk
    var book: map<string, Contact>
    var secure: map<string, string>

    constructor (documentDirectory: Path, files: map<Path, Content>, contacts: map<string, Contact>)
      requires forall p :: p in files ==> Locate(VaultDirOf(documentDirectory), p) == Outside
      ensures disk == Disk(VaultDirOf(documentDirectory), false, map[], files) && disk.Valid()
      ensures book == contacts && secure == map[]
    {
      disk := Disk(VaultDirOf(documentDirectory), false, map[], files);
      book := contacts;
      secure := map[];
    }

    /** `FileSystem.makeDirectoryAsync(COFRE_DIR, { intermediates: true })`:
        no error when the directory is already there. */
    method MakeVaultDirectory(fault: bool) returns (ok: bool)
      requires disk.Valid()
      modifies this
      ensures ok == !fault
      ensures disk == if ok then old(disk).(vaultExists := true) else old(disk)
      ensures disk.Valid() && book == old(book) && secure == old(secure)
    {
      ok := !fault;
      if ok {
        disk := disk.(vaultExists := true);
      }
    }

    /** `FileSystem.moveAsync({ from, to })`: fails when the source is missing
        or the target directory is; otherwise the file leaves `from` and
        appears at `to`. */
    method Move(from: Path, to: Path, fault: bool) returns (ok: bool)
      requires disk.Valid()
      modifies this
      ensures ok <==> !fault && old(disk.Lookup(from)).Some? && old(disk.CanCreate(to))
      ensures ok ==> disk == old(disk.Remove(from).Put(to, disk.Lookup(from).value))
      ensures !ok ==> disk == old(disk)
      ensures disk.Valid() && book == old(book) && secure == old(secure)
    {
      var content := disk.Lookup(from);
      ok := !fault && content.Some? && disk.CanCreate(to);
      if ok {
        disk := disk.Remove(from).Put(to, content.value);
      }
    }

    /** `FileSystem.writeAsStringAsync(path, data)`: creates or overwrites. */
    method WriteText(p: Path, data: Content, fault: bool) returns (ok: bool)
      requires disk.Valid()
      modifies this
      ensures ok <==> !fault && old(disk.CanCreate(p))
      ensures disk == if ok then old(disk.Put(p, data)) else old(disk)
      ensures disk.Valid() && book == old(book) && secure == old(secure)
    {
      ok := !fault && disk.CanCreate(p);
      if ok {
        disk := disk.Put(p, data);
      }
    }

    /** `FileSystem.deleteAsync(path)` without `idempotent`: a missing file is
        an error. */
    method Delete(p: Path, fault: bool) returns (ok: bool)
      requires disk.Valid()
      modifies this
      ensures ok <==> !fault && old(disk.Lookup(p)).Some?
      ensures disk == if ok then old(disk.Remove(p)) else old(disk)
      ensures disk.Valid() && book == old(book) && secure == old(secure)
    {
      ok := !fault && disk.Lookup(p).Some?;
      if ok {
        disk := disk.Remove(p);
      }
    }

    /** `FileSystem.deleteAsync(COFRE_DIR, { idempotent: true })`: removes the
        vault directory and everything in it. */
    method DeleteVault(fault: bool) returns (ok: bool)
      requires disk.Valid()
      modifies this
      ensures ok == !fault
      ensures disk == if ok then old(disk).(vaultExists := false, vault := map[]) else old(disk)
      ensures disk.Valid() && book == old(book) && secure == old(secure)
    {
      ok := !fault;
      if ok {
        disk := disk.(vaultExists := false, vault := map[]);
      }
    }

    /** `Contacts.removeContactAsync(id)`. */
    method RemoveContact(id: string, fault: bool) returns (ok: bool)
      modifies this
      ensures ok == !fault
      ensures book == if ok then old(book) - {id} else old(book)
      ensures disk == old(disk) && secure == old(secure)
    {
      ok := !fault;
      if ok {
        book := book - {id};
      }
    }

    /** `Contacts.addContactAsync(contact)`: the address book files a record
        that carries no id under an id of its own choosing, `freshId`. */
    method AddContact(c: Contact, freshId: string, fault: bool) returns (ok: bool)
      requires c.id == None && freshId !in book
      modifies this
      ensures ok == !fault
      ensures book == if ok then old(book)[freshId := c.(id := Some(freshId))] else old(book)
      ensures disk == old(disk) && secure == old(secure)
    {
      ok := !fault;
      if ok {
        book := book[freshId := c.(id := Some(freshId))];
      }
    }

    /** `SecureStore.setItemAsync(key, value)`: overwrites unconditionally. */
    method SetSecureItem(key: string, value: string, fault: bool) returns (ok: bool)
      modifies this
      ensures ok == !fault
      ensures secure == if ok then old(secure)[key := value] else old(secure)
      ensures disk == old(disk) && book == old(book)
    {
      ok := !fault;
      if ok {
        secure := secure[key := value];
      }
    }
  }

  /** Which step of listing the vault throws: `getInfoAsync(COFRE_DIR)` or
      `readDirectoryAsync(COFRE_DIR)`. */
  datatype ListFaults = ListFaults(infoFault: bool, readDirFault: bool)

  /** No element occurs twice. */
  predicate Distinct<T(==)>(s: seq<T>) {
    forall i, j :: 0 <= i < j < |s| ==> s[i] != s[j]
  }

  /** `listing` is an enumeration of the names in `names`, each once: what
      `FileSystem.readDirectoryAsync` returns, in an order the platform picks. */
  ghost predicate IsListingOf(listing: seq<string>, names: set<string>) {
    && Distinct(listing)
    && (forall n :: n in listing <==> n in names)
  }
}
