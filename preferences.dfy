/** The Android app's "AgendaSegura" SharedPreferences file: its string and
    boolean entries, and the editor whose puts take effect on `apply()`. */
module Preferences {

  const KeyNomeUsuario: string := "nome_usuario"
  const KeyTelefone: string := "telefone"
  const KeySenha: string := "senha"
  const KeyPrimeiroAcesso: string := "primeiro_acesso"

  /** `prefs.getString(key, default)`. */
  function GetString(strings: map<string, string>, key: string, default: string): (value: string)
    ensures key in strings ==> value == strings[key]
    ensures key !in strings ==> value == default
  {
    if key in strings then strings[key] else default
  }

  /** `prefs.edit()` with the puts made so far, not yet applied. */
  datatype Editor = Editor(strings: map<string, string>, booleans: map<string, bool>)
  {
    /** `editor.putString(key, value)`. */
    function PutString(key: string, value: string): Editor {
      this.(strings := strings[key := value])
    }

    /** `editor.putBoolean(key, value)`. */
    function PutBoolean(key: string, value: bool): Editor {
      this.(booleans := booleans[key := value])
    }
  }

  /** Applying one more put is updating the applied result with it. */
  lemma ApplyPutString(m: map<string, string>, e: Editor, key: string, value: string)
    ensures m + e.PutString(key, value).strings == (m + e.strings)[key := value]
  {
  }

  lemma ApplyPutBoolean(m: map<string, bool>, e: Editor, key: string, value: bool)
    ensures m + e.PutBoolean(key, value).booleans == (m + e.booleans)[key := value]
  {
  }

  /** A fresh editor: no pending change. */
  const NewEditor: Editor := Editor(map[], map[])

  class SharedPreferences {
    var strings: map<string, string>
    var booleans: map<string, bool>

    constructor (strings0: map<string, string>, booleans0: map<string, bool>)
      ensures strings == strings0 && booleans == booleans0
    {
      strings := strings0;
      booleans := booleans0;
    }

    /** `editor.apply()`: every pending put overwrites its key; other entries
        stay. */
    method Apply(e: Editor)
      modifies this
      ensures strings == old(strings) + e.strings
      ensures booleans == old(booleans) + e.booleans
    {
      strings := strings + e.strings;
      booleans := booleans + e.booleans;
    }
  }
}
