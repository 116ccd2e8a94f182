/** The contacts screen: selecting address-book contacts and hiding the
    selected ones in the vault, one `contato_<id>.json` file each, removing
    them from the address book once their file is written. */
module ContatosScreen {
  import opened Wrappers
  import opened Platform
  import Text

  /** One key of the `selectedContacts` object: a contact id and its flag. */
  datatype Flag = Flag(id: string, on: bool)

  /** The `selectedContacts` object, its keys in insertion order. */
  type Selection = seq<Flag>

  /** `Object.keys(selectedContacts)`. */
  function Keys(sel: Selection): (ks: seq<string>)
    ensures |ks| == |sel|
  {
    if sel == [] then [] else [sel[0].id] + Keys(sel[1..])
  }

  /** Without its first key, a selection with distinct keys still has
      distinct keys, none of them the first. */
  lemma KeysTail(sel: Selection)
    requires sel != [] && Distinct(Keys(sel))
    ensures Distinct(Keys(sel[1..])) && sel[0].id !in Keys(sel[1..])
  {
    var ks, tail := Keys(sel), Keys(sel[1..]);
    assert ks == [sel[0].id] + tail;
    forall i, j | 0 <= i < j < |tail|
      ensures tail[i] != tail[j]
    {
      assert tail[i] == ks[i + 1] && tail[j] == ks[j + 1];
    }
    forall j | 0 <= j < |tail|
      ensures tail[j] != sel[0].id
    {
      assert tail[j] == ks[j + 1] && ks[0] == sel[0].id;
    }
  }

  /** `selectedContacts[id]` read as a condition: a missing key is false. */
  function IsSelected(sel: Selection, id: string): (b: bool)
    ensures b ==> id in Keys(sel)
  {
    if sel == [] then false
    else if sel[0].id == id then sel[0].on
    else IsSelected(sel[1..], id)
  }

  /** `toggleContactSelection(id)`: `{ ...prev, [id]: !prev[id] }`. A new key
      goes last; an existing key keeps its place. */
  function Toggle(sel: Selection, id: string): (r: Selection)
    ensures IsSelected(r, id) == !IsSelected(sel, id)
    ensures forall x :: x != id ==> IsSelected(r, x) == IsSelected(sel, x)
    ensures Keys(r) == if id in Keys(sel) then Keys(sel) else Keys(sel) + [id]
  {
    if sel == [] then [Flag(id, true)]
    else if sel[0].id == id then [Flag(id, !sel[0].on)] + sel[1..]
    else
      var rest := Toggle(sel[1..], id);
      assert Keys([sel[0]] + rest) == [sel[0].id] + Keys(rest);
      [sel[0]] + rest
  }

  /** `Object.keys(selectedContacts).filter(id => selectedContacts[id])`: the
      ids to hide are exactly the keys whose flag is on, each once. */
  function SelectedIds(sel: Selection): (ids: seq<string>)
    ensures forall x :: x in ids ==> x in Keys(sel)
    ensures Distinct(Keys(sel)) ==> Distinct(ids)
    ensures Distinct(Keys(sel)) ==> forall x :: x in ids <==> IsSelected(sel, x)
  {
    if sel == [] then []
    else
      var rest := SelectedIds(sel[1..]);
      if Distinct(Keys(sel)) then KeysTail(sel); (if sel[0].on then [sel[0].id] else []) + rest
      else (if sel[0].on then [sel[0].id] else []) + rest
  }

  /** Toggling the same id twice restores the set of selected ids. */
  lemma {:induction false} ToggleTwice(sel: Selection, id: string)
    requires Distinct(Keys(sel))
    ensures SelectedIds(Toggle(Toggle(sel, id), id)) == SelectedIds(sel)
  {
    if sel == [] {
      assert Toggle(Toggle(sel, id), id) == [Flag(id, false)];
    } else if sel[0].id == id {
      var once := [Flag(id, !sel[0].on)] + sel[1..];
      assert once[1..] == sel[1..];
      assert Toggle(once, id) == sel;
    } else {
      var rest := sel[1..];
      KeysTail(sel);
      ToggleTwice(rest, id);
      var once := [sel[0]] + Toggle(rest, id);
      assert once[1..] == Toggle(rest, id);
      var twice := [sel[0]] + Toggle(Toggle(rest, id), id);
      assert Toggle(once, id) == twice;
      assert twice[1..] == Toggle(Toggle(rest, id), id);
    }
  }

  /** The vault file a contact is hidden in. */
  function BackupName(id: string): (n: string)
    ensures Text.StartsWith(n, "contato_") && Text.EndsWith(n, ".json")
    ensures |n| == |id| + 13 && n[8..8 + |id|] == id
  {
    "contato_" + id + ".json"
  }

  /** Different ids never share a vault file. */
  lemma BackupNameInjective(a: string, b: string)
    requires BackupName(a) == BackupName(b)
    ensures a == b
  {
    assert |a| == |b|;
    assert BackupName(a)[8..8 + |a|] == a;
    assert BackupName(b)[8..8 + |b|] == b;
  }

  /** The backup file lands in the vault unless the id holds a separator. */
  lemma BackupNameLocation(vaultDir: Path, id: string)
    ensures Locate(vaultDir, vaultDir + BackupName(id)) ==
      if '/' in id then Nested else InVault(BackupName(id))
  {
    var n := BackupName(id);
    assert n[8..8 + |id|] == id;
    if '/' in id {
      assert '/' in n;
    } else {
      forall i | 0 <= i < |n|
        ensures n[i] != '/'
      {
        if 8 <= i < 8 + |id| {
          assert n[i] == id[i - 8];
        }
      }
    }
    LocateJoin(vaultDir, n);
  }

  /** `secureContacts.find(c => c.id === id)`. */
  function Find(contacts: seq<Contact>, id: string): (r: Option<Contact>)
    ensures r.Some? ==> r.value in contacts && r.value.id == Some(id)
    ensures r.None? ==> forall c :: c in contacts ==> c.id != Some(id)
    // the first match, as `find` returns
    ensures r.Some? ==>
      exists i :: (0 <= i < |contacts| && contacts[i] == r.value
                   && forall j :: 0 <= j < i ==> contacts[j].id != Some(id))
  {
    if contacts == [] then None
    else if contacts[0].id == Some(id) then Some(contacts[0])
    else Find(contacts[1..], id)
  }

  /** What happens to one selected id inside the loop. */
  datatype ItemOutcome =
    | Skipped        // not among the loaded contacts: `continue`, no alert
    | WriteFailed    // empty payload or failed write: caught, alert, nothing changed
    | RemoveFailed   // written, but the address book refused the removal: caught, alert
    | Hidden         // written and removed: counted
  {
    predicate Written() { this == RemoveFailed || this == Hidden }
    predicate Failed() { this == WriteFailed || this == RemoveFailed }
  }

  /** What the loop reads besides the device: the loaded contact list, the
      serializer, and which ids' write or removal fails. */
  datatype HideEnv = HideEnv(contacts: seq<Contact>, codec: Codec, writeFaults: set<string>, removeFaults: set<string>)
  {
    /** The text written for `id`: the whole contact record, id included. */
    function Payload(id: string): Content {
      match Find(contacts, id)
      case None => []
      case Some(c) => codec.stringify(c)
    }

    function Outcome(id: string): (o: ItemOutcome)
      ensures o == Skipped <==> Find(contacts, id).None?
      ensures o.Written() ==> Payload(id) != [] && '/' !in id && id !in writeFaults
      ensures o == Hidden <==> o.Written() && id !in removeFaults
    {
      if Find(contacts, id).None? then Skipped
      else if Payload(id) == [] || '/' in id || id in writeFaults then WriteFailed
      else if id in removeFaults then RemoveFailed
      else Hidden
    }
  }

  /** The vault after the loop has handled `ids` in order. */
  function VaultAfter(env: HideEnv, vault: map<string, Content>, ids: seq<string>): map<string, Content>
  {
    if ids == [] then vault
    else
      var id := ids[|ids| - 1];
      var v := VaultAfter(env, vault, ids[..|ids| - 1]);
      if env.Outcome(id).Written() then v[BackupName(id) := env.Payload(id)] else v
  }

  /** The address book after the loop has handled `ids` in order. */
  function BookAfter(env: HideEnv, book: map<string, Contact>, ids: seq<string>): map<string, Contact>
  {
    if ids == [] then book
    else
      var id := ids[|ids| - 1];
      var b := BookAfter(env, book, ids[..|ids| - 1]);
      if env.Outcome(id) == Hidden then b - {id} else b
  }

  /** `successfulDeletions` after the loop has handled `ids`. */
  function HiddenCount(env: HideEnv, ids: seq<string>): nat
  {
    if ids == [] then 0
    else HiddenCount(env, ids[..|ids| - 1]) + (if env.Outcome(ids[|ids| - 1]) == Hidden then 1 else 0)
  }

  /** The ids an error alert was shown for, in order. */
  function FailedIds(env: HideEnv, ids: seq<string>): seq<string>
  {
    if ids == [] then []
    else FailedIds(env, ids[..|ids| - 1]) + (if env.Outcome(ids[|ids| - 1]).Failed() then [ids[|ids| - 1]] else [])
  }

  /** The ids that ended up written and removed. */
  function HiddenIds(env: HideEnv, ids: seq<string>): set<string> {
    set id | id in ids && env.Outcome(id) == Hidden
  }

  /** One more handled id: how each of the four results moves on. */
  lemma Step(env: HideEnv, vault: map<string, Content>, book: map<string, Contact>, ids: seq<string>, i: nat)
    requires i < |ids|
    ensures
      var id, p, q := ids[i], ids[..i], ids[..i + 1];
      && VaultAfter(env, vault, q) ==
        (if env.Outcome(id).Written() then VaultAfter(env, vault, p)[BackupName(id) := env.Payload(id)]
         else VaultAfter(env, vault, p))
      && BookAfter(env, book, q) == (if env.Outcome(id) == Hidden then BookAfter(env, book, p) - {id} else BookAfter(env, book, p))
      && HiddenCount(env, q) == HiddenCount(env, p) + (if env.Outcome(id) == Hidden then 1 else 0)
      && FailedIds(env, q) == FailedIds(env, p) + (if env.Outcome(id).Failed() then [id] else [])
  {
    assert ids[..i + 1][..i] == ids[..i];
  }

  lemma HiddenIdsSnoc(env: HideEnv, p: seq<string>, id: string)
    ensures HiddenIds(env, p + [id]) == HiddenIds(env, p) + (if env.Outcome(id) == Hidden then {id} else {})
  {
  }

  /** Each selected id is either counted, reported, or silently skipped. */
  lemma {:induction false} CountBound(env: HideEnv, ids: seq<string>)
    ensures HiddenCount(env, ids) + |FailedIds(env, ids)| <= |ids|
  {
    if ids != [] {
      CountBound(env, ids[..|ids| - 1]);
    }
  }

  /** The alerts name exactly the selected ids whose write or removal failed. */
  lemma {:induction false} FailedIdsMembers(env: HideEnv, ids: seq<string>, x: string)
    ensures x in FailedIds(env, ids) <==> x in ids && env.Outcome(x).Failed()
  {
    if ids != [] {
      var p := ids[..|ids| - 1];
      FailedIdsMembers(env, p, x);
      assert ids == p + [ids[|ids| - 1]];
    }
  }

  /** The address book loses exactly the hidden ids. */
  lemma {:induction false} BookAfterRemovesHidden(env: HideEnv, book: map<string, Contact>, ids: seq<string>)
    ensures BookAfter(env, book, ids) == book - HiddenIds(env, ids)
  {
    if ids != [] {
      var p := ids[..|ids| - 1];
      var id := ids[|ids| - 1];
      BookAfterRemovesHidden(env, book, p);
      assert ids == p + [id];
      HiddenIdsSnoc(env, p, id);
    }
  }

  /** With each id selected once, the count is the number of hidden ids. */
  lemma {:induction false} HiddenCountIsSize(env: HideEnv, ids: seq<string>)
    requires Distinct(ids)
    ensures HiddenCount(env, ids) == |HiddenIds(env, ids)|
  {
    if ids != [] {
      var p := ids[..|ids| - 1];
      var id := ids[|ids| - 1];
      assert ids == p + [id];
      assert Distinct(p);
      assert id !in p by {
        forall k | 0 <= k < |p|
          ensures p[k] != id
        {
          assert p[k] == ids[k];
        }
      }
      HiddenCountIsSize(env, p);
      HiddenIdsSnoc(env, p, id);
    }
  }

  /** The final count equals the number of contacts actually removed from the
      address book, when every hidden id was in it. */
  lemma CountEqualsRemoved(env: HideEnv, book: map<string, Contact>, ids: seq<string>)
    requires Distinct(ids)
    requires forall id :: id in HiddenIds(env, ids) ==> id in book
    ensures |book.Keys| - |BookAfter(env, book, ids).Keys| == HiddenCount(env, ids)
  {
    BookAfterRemovesHidden(env, book, ids);
    HiddenCountIsSize(env, ids);
    var h := HiddenIds(env, ids);
    assert (book - h).Keys == book.Keys - h;
    assert book.Keys == (book.Keys - h) + h;
  }

  /** What the vault holds under one contact's backup name after the loop. */
  lemma {:induction false} VaultAfterBackup(env: HideEnv, vault: map<string, Content>, ids: seq<string>, id: string)
    ensures BackupName(id) in VaultAfter(env, vault, ids) <==>
      BackupName(id) in vault || (id in ids && env.Outcome(id).Written())
    ensures id in ids && env.Outcome(id).Written() ==>
      VaultAfter(env, vault, ids)[BackupName(id)] == env.Payload(id)
    ensures !(id in ids && env.Outcome(id).Written()) && BackupName(id) in vault ==>
      VaultAfter(env, vault, ids)[BackupName(id)] == vault[BackupName(id)]
  {
    if ids != [] {
      var p := ids[..|ids| - 1];
      var last := ids[|ids| - 1];
      assert ids == p + [last];
      VaultAfterBackup(env, vault, p, id);
      if BackupName(last) == BackupName(id) {
        BackupNameInjective(last, id);
      }
    }
  }

  /** The loop only adds vault files: every file that was there stays. */
  lemma {:induction false} VaultAfterKeepsFiles(env: HideEnv, vault: map<string, Content>, ids: seq<string>)
    ensures vault.Keys <= VaultAfter(env, vault, ids).Keys
  {
    if ids != [] {
      VaultAfterKeepsFiles(env, vault, ids[..|ids| - 1]);
    }
  }

  /** A vault file no handled id writes to is left as it was. */
  lemma {:induction false} VaultAfterKeeps(env: HideEnv, vault: map<string, Content>, ids: seq<string>, n: string)
    requires forall id :: id in ids && env.Outcome(id).Written() ==> BackupName(id) != n
    ensures n in VaultAfter(env, vault, ids) <==> n in vault
    ensures n in vault ==> VaultAfter(env, vault, ids)[n] == vault[n]
  {
    if ids != [] {
      var p := ids[..|ids| - 1];
      assert ids == p + [ids[|ids| - 1]];
      VaultAfterKeeps(env, vault, p, n);
    }
  }

  /** Write before delete: a contact that left the address book has its whole
      record, id included, in its vault file. */
  lemma WriteBeforeDelete(env: HideEnv, vault: map<string, Content>, book: map<string, Contact>, ids: seq<string>, id: string)
    requires id in book && id !in BookAfter(env, book, ids)
    ensures Find(env.contacts, id).Some? && Find(env.contacts, id).value.id == Some(id)
    ensures BackupName(id) in VaultAfter(env, vault, ids)
    ensures VaultAfter(env, vault, ids)[BackupName(id)] == env.codec.stringify(Find(env.contacts, id).value)
  {
    BookAfterRemovesHidden(env, book, ids);
    assert id in HiddenIds(env, ids);
    VaultAfterBackup(env, vault, ids, id);
  }

  /** An id missing from the loaded contacts leaves no trace: no file, no
      removal, no count, no alert. */
  lemma SkippedLeavesNoTrace(env: HideEnv, vault: map<string, Content>, book: map<string, Contact>, ids: seq<string>, id: string)
    requires Find(env.contacts, id).None?
    ensures id in BookAfter(env, book, ids) <==> id in book
    ensures BackupName(id) in VaultAfter(env, vault, ids) <==> BackupName(id) in vault
    ensures id !in HiddenIds(env, ids) && id !in FailedIds(env, ids)
  {
    BookAfterRemovesHidden(env, book, ids);
    VaultAfterBackup(env, vault, ids, id);
    FailedIdsMembers(env, ids, id);
  }

  /** The per-id outcomes of the three-contact example below. */
  lemma ThreeOutcomes(env: HideEnv, a: string, b: string, c: string)
    requires a != b && b != c && a != c
    requires '/' !in a && '/' !in c
    requires forall k :: env.codec.stringify(k) != []
    requires |env.contacts| == 3 && env.writeFaults == {b} && env.removeFaults == {}
    requires env.contacts[0].id == Some(a) && env.contacts[1].id == Some(b) && env.contacts[2].id == Some(c)
    ensures env.Outcome(a) == Hidden && env.Outcome(b) == WriteFailed && env.Outcome(c) == Hidden
    ensures env.Payload(a) == env.codec.stringify(env.contacts[0])
    ensures env.Payload(c) == env.codec.stringify(env.contacts[2])
  {
    var cs := env.contacts;
    assert cs[1..][0] == cs[1] && cs[1..][1..][0] == cs[2] && |cs[1..][1..]| == 1;
    assert Find(cs, a) == Some(cs[0]);
    assert Find(cs, b) == Some(cs[1]);
    assert Find(cs, c) == Some(cs[2]);
  }

  /** Handling three ids whose outcomes are hidden, failed write, hidden:
      the count and the alerts. */
  lemma HideThreeCounts(env: HideEnv, a: string, b: string, c: string)
    requires env.Outcome(a) == Hidden && env.Outcome(b) == WriteFailed && env.Outcome(c) == Hidden
    ensures HiddenCount(env, [a, b, c]) == 2 && FailedIds(env, [a, b, c]) == [b]
  {
    var one, two, three := [a], [a, b], [a, b, c];
    assert one[..0] == [] && two[..1] == one && three[..2] == two;
    assert HiddenCount(env, one) == 1 && FailedIds(env, one) == [];
    assert HiddenCount(env, two) == 1 && FailedIds(env, two) == [b];
  }

  /** The same three ids: the address book loses the first and the third. */
  lemma HideThreeBook(env: HideEnv, book: map<string, Contact>, a: string, b: string, c: string)
    requires env.Outcome(a) == Hidden && env.Outcome(b) == WriteFailed && env.Outcome(c) == Hidden
    ensures BookAfter(env, book, [a, b, c]) == book - {a} - {c}
  {
    var one, two, three := [a], [a, b], [a, b, c];
    assert one[..0] == [] && two[..1] == one && three[..2] == two;
    assert BookAfter(env, book, one) == book - {a};
    assert BookAfter(env, book, two) == book - {a};
  }

  /** The same three ids: the vault gains the first and the third backup. */
  lemma HideThreeVault(env: HideEnv, vault: map<string, Content>, a: string, b: string, c: string)
    requires env.Outcome(a) == Hidden && env.Outcome(b) == WriteFailed && env.Outcome(c) == Hidden
    ensures VaultAfter(env, vault, [a, b, c]) ==
      vault[BackupName(a) := env.Payload(a)][BackupName(c) := env.Payload(c)]
  {
    var one, two, three := [a], [a, b], [a, b, c];
    assert one[..0] == [] && two[..1] == one && three[..2] == two;
    var va := vault[BackupName(a) := env.Payload(a)];
    assert VaultAfter(env, vault, one) == va;
    assert VaultAfter(env, vault, two) == va;
  }

  /** Three selected contacts whose second write fails: the first and third
      are hidden, counted and backed up; the second stays in the address book,
      gets no file and is reported. */
  lemma PartialFailure(codec: Codec, book: map<string, Contact>, vault: map<string, Content>,
                       a: string, b: string, c: string, na: string, nb: string, nc: string)
    requires a != b && b != c && a != c
    requires '/' !in a && '/' !in c
    requires forall k :: codec.stringify(k) != []
    ensures
      var contacts := [Contact(Some(a), na, []), Contact(Some(b), nb, []), Contact(Some(c), nc, [])];
      var env := HideEnv(contacts, codec, {b}, {});
      var ids := [a, b, c];
      && HiddenCount(env, ids) == 2
      && FailedIds(env, ids) == [b]
      && BookAfter(env, book, ids) == book - {a} - {c}
      && VaultAfter(env, vault, ids) ==
           vault[BackupName(a) := codec.stringify(contacts[0])][BackupName(c) := codec.stringify(contacts[2])]
  {
    var contacts := [Contact(Some(a), na, []), Contact(Some(b), nb, []), Contact(Some(c), nc, [])];
    var env := HideEnv(contacts, codec, {b}, {});
    var ids := [a, b, c];
    ThreeOutcomes(env, a, b, c);
    HideThreeCounts(env, a, b, c);
    HideThreeBook(env, book, a, b, c);
    HideThreeVault(env, vault, a, b, c);
  }

  datatype HideResult =
    | NothingSelected            // "Aviso": select at least one contact
    | Cancelled                  // the confirmation was dismissed
    | DirectoryFailed            // ensuring the vault threw before the loop
    | Done(hidden: nat, failed: seq<string>)  // "Concluído!" with the count

  /** One pass of the loop body for `id`, its `catch` included: look the
      contact up, write its backup file, and only then remove it from the
      address book. */
  method HideContact(dev: Device, env: HideEnv, id: string) returns (o: ItemOutcome)
    requires dev.disk.Valid() && dev.disk.vaultExists
    modifies dev
    ensures o == env.Outcome(id)
    ensures dev.disk == old(dev.disk).(vault :=
      if o.Written() then old(dev.disk.vault)[BackupName(id) := env.Payload(id)] else old(dev.disk.vault))
    ensures dev.book == if o == Hidden then old(dev.book) - {id} else old(dev.book)
    ensures dev.disk.Valid() && dev.secure == old(dev.secure)
  {
    var contactToEncrypt := Find(env.contacts, id);
    if contactToEncrypt.None? {
      return Skipped;
    }
    var encryptedData := env.codec.stringify(contactToEncrypt.value);
    var backupPath := dev.disk.vaultDir + BackupName(id);
    BackupNameLocation(dev.disk.vaultDir, id);
    if encryptedData == [] {
      return WriteFailed;
    }
    var ok := dev.WriteText(backupPath, encryptedData, id in env.writeFaults);
    if !ok {
      return WriteFailed;
    }
    ok := dev.RemoveContact(id, id in env.removeFaults);
    if !ok {
      return RemoveFailed;
    }
    o := Hidden;
  }

  /** The `for` loop over the selected ids, once the vault directory exists:
      each id is handled in turn and a failure on one never stops the rest. */
  method HideAll(dev: Device, env: HideEnv, ids: seq<string>) returns (successfulDeletions: nat, failed: seq<string>)
    requires dev.disk.Valid() && dev.disk.vaultExists
    modifies dev
    ensures dev.disk == old(dev.disk).(vault := VaultAfter(env, old(dev.disk.vault), ids))
    ensures dev.book == BookAfter(env, old(dev.book), ids)
    ensures successfulDeletions == HiddenCount(env, ids) && failed == FailedIds(env, ids)
    ensures dev.disk.Valid() && dev.secure == old(dev.secure)
  {
    ghost var disk0, book0 := dev.disk, dev.book;
    successfulDeletions := 0;
    failed := [];
    for i := 0 to |ids|
      invariant dev.disk.Valid() && dev.secure == old(dev.secure)
      invariant dev.disk == disk0.(vault := VaultAfter(env, disk0.vault, ids[..i]))
      invariant dev.book == BookAfter(env, book0, ids[..i])
      invariant successfulDeletions == HiddenCount(env, ids[..i])
      invariant failed == FailedIds(env, ids[..i])
    {
      var id := ids[i];
      Step(env, disk0.vault, book0, ids, i);
      var outcome := HideContact(dev, env, id);
      if outcome == Hidden {
        successfulDeletions := successfulDeletions + 1;
      } else if outcome.Failed() {
        failed := failed + [id];
      }
    }
    assert ids[..|ids|] == ids;
  }

  /** `encryptAndRemoveSelected()`, with the confirmation's answer as
      `confirmed`: ensure the vault directory once, then for each selected id
      write its backup file and only then remove it from the address book; a
      failure on one id is reported and the loop goes on. */
  method EncryptAndRemoveSelected(dev: Device, sel: Selection, env: HideEnv, confirmed: bool, mkdirFault: bool)
    returns (r: HideResult)
    requires dev.disk.Valid()
    modifies dev
    ensures dev.disk.Valid() && dev.secure == old(dev.secure)
    ensures r == NothingSelected <==> SelectedIds(sel) == []
    ensures r == Cancelled <==> SelectedIds(sel) != [] && !confirmed
    ensures r == DirectoryFailed <==> SelectedIds(sel) != [] && confirmed && mkdirFault
    ensures !r.Done? ==> dev.disk == old(dev.disk) && dev.book == old(dev.book)
    ensures r.Done? ==>
      var ids := SelectedIds(sel);
      && dev.disk == old(dev.disk).(vaultExists := true, vault := VaultAfter(env, old(dev.disk.vault), ids))
      && dev.book == BookAfter(env, old(dev.book), ids)
      && r == Done(HiddenCount(env, ids), FailedIds(env, ids))
  {
    var ids := SelectedIds(sel);
    if ids == [] {
      return NothingSelected;
    }
    if !confirmed {
      return Cancelled;
    }
    var ok := dev.MakeVaultDirectory(mkdirFault);
    if !ok {
      return DirectoryFailed;
    }
    var successfulDeletions, failed := HideAll(dev, env, ids);
    r := Done(successfulDeletions, failed);
  }
}
