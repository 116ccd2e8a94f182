/** The Android contact list: the `Contato` record and the adapter rule that
    decides what each row shows. */
module ContatosAdapter {
  import opened Wrappers

  /** A contact of the Android agenda; the photo and video paths are absent
      unless captured. */
  datatype Contato = Contato(
    nome: string,
    telefone: string,
    numeroOculto: bool,
    fotoCaminho: Option<string>,
    videoCaminho: Option<string>)

  /** What a row shows in place of a hidden number. */
  const PhoneMask: string := "***-****-****"

  predicate IsDigit(c: char) {
    '0' <= c <= '9'
  }

  /** The two texts of a bound row and the contact its click hands back. */
  datatype BoundRow = BoundRow(tvNome: string, tvTelefone: string, clickTarget: Contato)

  /** `getItemCount()`. */
  function GetItemCount(contatos: seq<Contato>): (n: nat)
    ensures n == |contatos|
    ensures n == 0 <==> contatos == []
  {
    |contatos|
  }

  /** `onBindViewHolder(holder, position)`: the row at `position` shows that
      contact's name unchanged and its phone or the mask, and a click on it
      hands back that same contact. The list only binds positions below
      `getItemCount()`. */
  function OnBindViewHolder(contatos: seq<Contato>, position: nat): (row: BoundRow)
    requires position < GetItemCount(contatos)
    ensures row.tvNome == contatos[position].nome
    ensures row.clickTarget == contatos[position]
    ensures contatos[position].numeroOculto ==> row.tvTelefone == PhoneMask
    ensures !contatos[position].numeroOculto ==> row.tvTelefone == contatos[position].telefone
  {
    var contato := contatos[position];
    BoundRow(contato.nome, if contato.numeroOculto then PhoneMask else contato.telefone, contato)
  }

  /** The list binds positions `0 .. getItemCount() - 1`, and their clicks
      hand back the contacts in order: every contact gets exactly one row and
      no row lacks a contact. */
  lemma RowsAreTheList(contatos: seq<Contato>)
    ensures seq(GetItemCount(contatos), p requires 0 <= p < GetItemCount(contatos) =>
      OnBindViewHolder(contatos, p).clickTarget) == contatos
    ensures seq(GetItemCount(contatos), p requires 0 <= p < GetItemCount(contatos) =>
      OnBindViewHolder(contatos, p).tvNome) == seq(|contatos|, i requires 0 <= i < |contatos| => contatos[i].nome)
  {
  }

  /** A hidden number's row is the same whatever the number is: changing the
      phone of a hidden contact changes only the contact handed to the
      click. */
  lemma MaskIndependentOfPhone(contatos: seq<Contato>, position: nat, telefone: string)
    requires position < |contatos| && contatos[position].numeroOculto
    ensures
      var other := contatos[position := contatos[position].(telefone := telefone)];
      && OnBindViewHolder(other, position).tvNome == OnBindViewHolder(contatos, position).tvNome
      && OnBindViewHolder(other, position).tvTelefone == OnBindViewHolder(contatos, position).tvTelefone
  {
  }

  /** A hidden number's row shows no digit at all. */
  lemma HiddenRowShowsNoDigit(contatos: seq<Contato>, position: nat)
    requires position < |contatos| && contatos[position].numeroOculto
    ensures forall i :: 0 <= i < |OnBindViewHolder(contatos, position).tvTelefone| ==>
      !IsDigit(OnBindViewHolder(contatos, position).tvTelefone[i])
  {
    var m := PhoneMask;
    assert |m| == 13;
    forall i | 0 <= i < |m|
      ensures !IsDigit(m[i])
    {
      assert m[i] == '*' || m[i] == '-';
    }
  }

  /** The row shows the phone exactly when the number is visible, or when
      the phone happens to be the mask text itself. */
  lemma RowShowsPhoneIff(contatos: seq<Contato>, position: nat)
    requires position < |contatos|
    ensures OnBindViewHolder(contatos, position).tvTelefone == contatos[position].telefone <==>
      !contatos[position].numeroOculto || contatos[position].telefone == PhoneMask
  {
  }
}
