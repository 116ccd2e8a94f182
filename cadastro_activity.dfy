/** The Android registration screen: field validation in a fixed order, and
    saving the user's data to the preferences file. */
module CadastroActivity {
  import opened Wrappers
  import opened Preferences
  import Text
  import MainActivity

  /** The four field texts, as typed. */
  datatype Form = Form(nome: string, telefone: string, senha: string, confirmarSenha: string)

  /** The first failing check, each with its message. */
  datatype CadastroError =
    | NomeObrigatorio
    | TelefoneObrigatorio
    | TelefoneCurto
    | SenhaObrigatoria
    | SenhaCurta
    | SenhasDiferentes
  {
    function Message(): string {
      match this
      case NomeObrigatorio => "Nome é obrigatório!"
      case TelefoneObrigatorio => "Telefone é obrigatório!"
      case TelefoneCurto => "Telefone deve ter pelo menos 10 dígitos!"
      case SenhaObrigatoria => "Senha é obrigatória!"
      case SenhaCurta => "Senha deve ter pelo menos 4 caracteres!"
      case SenhasDiferentes => "Senhas não coincidem!"
    }
  }

  const MinTelefoneLength: nat := 10
  const MinSenhaLength: nat := 4

  /** What a valid form is: a name and a phone of at least 10 characters
      after trimming, and an untrimmed password of at least 4 characters
      equal to its confirmation. */
  predicate Acceptable(f: Form) {
    && Text.Trim(f.nome) != []
    && |Text.Trim(f.telefone)| >= MinTelefoneLength
    && |f.senha| >= MinSenhaLength
    && f.senha == f.confirmarSenha
  }

  /** `validarCampos()`: `None` when every check passes, otherwise the first
      check that fails, in the order name, phone, phone length, password,
      password length, confirmation. */
  function ValidarCampos(f: Form): (r: Option<CadastroError>)
    ensures r.None? <==> Acceptable(f)
    ensures r == Some(NomeObrigatorio) <==> Text.Trim(f.nome) == []
    ensures r == Some(TelefoneObrigatorio) <==> Text.Trim(f.nome) != [] && Text.Trim(f.telefone) == []
    ensures r == Some(TelefoneCurto) <==>
      Text.Trim(f.nome) != [] && 0 < |Text.Trim(f.telefone)| < MinTelefoneLength
    ensures r == Some(SenhaObrigatoria) <==>
      Text.Trim(f.nome) != [] && |Text.Trim(f.telefone)| >= MinTelefoneLength && f.senha == []
    ensures r == Some(SenhaCurta) <==>
      Text.Trim(f.nome) != [] && |Text.Trim(f.telefone)| >= MinTelefoneLength && 0 < |f.senha| < MinSenhaLength
    ensures r == Some(SenhasDiferentes) <==>
      Text.Trim(f.nome) != [] && |Text.Trim(f.telefone)| >= MinTelefoneLength && |f.senha| >= MinSenhaLength
      && f.senha != f.confirmarSenha
  {
    var nome := Text.Trim(f.nome);
    var telefone := Text.Trim(f.telefone);
    if nome == [] then Some(NomeObrigatorio)
    else if telefone == [] then Some(TelefoneObrigatorio)
    else if |telefone| < MinTelefoneLength then Some(TelefoneCurto)
    else if f.senha == [] then Some(SenhaObrigatoria)
    else if |f.senha| < MinSenhaLength then Some(SenhaCurta)
    else if f.senha != f.confirmarSenha then Some(SenhasDiferentes)
    else None
  }

  /** Whitespace around the name or the phone never changes the verdict. */
  lemma NameAndPhonePaddingIgnored(f: Form, a: string, b: string, c: string, d: string)
    requires Text.AllWhitespace(a) && Text.AllWhitespace(b) && Text.AllWhitespace(c) && Text.AllWhitespace(d)
    ensures ValidarCampos(f.(nome := a + f.nome + b, telefone := c + f.telefone + d)) == ValidarCampos(f)
  {
    Text.TrimIgnoresPadding(a, f.nome, b);
    Text.TrimIgnoresPadding(c, f.telefone, d);
  }

  /** The password is not trimmed: a trailing space on the confirmation of a
      valid form makes the passwords differ. */
  lemma PasswordNotTrimmed(f: Form)
    requires Acceptable(f)
    ensures ValidarCampos(f.(confirmarSenha := f.confirmarSenha + " ")) == Some(SenhasDiferentes)
  {
    var g := f.(confirmarSenha := f.confirmarSenha + " ");
    assert |g.confirmarSenha| != |g.senha|;
  }

  /** The string entries after `salvarDados()`. */
  function SavedStrings(strings: map<string, string>, f: Form): map<string, string> {
    strings[KeyNomeUsuario := Text.Trim(f.nome)][KeyTelefone := Text.Trim(f.telefone)][KeySenha := f.senha]
  }

  /** After a valid registration the app is no longer on its first start,
      and the registered password opens the login gate. */
  lemma RegistrationEndsFirstTime(strings: map<string, string>, f: Form)
    requires ValidarCampos(f).None?
    ensures !MainActivity.IsFirstTime(SavedStrings(strings, f))
    ensures MainActivity.ValidarSenha(SavedStrings(strings, f), f.senha)
    ensures forall s :: MainActivity.ValidarSenha(SavedStrings(strings, f), s) <==> s == f.senha
    ensures GetString(SavedStrings(strings, f), KeyTelefone, "") == Text.Trim(f.telefone)
  {
    var saved := SavedStrings(strings, f);
    assert KeySenha != KeyTelefone && KeySenha != KeyNomeUsuario;
    assert saved[KeySenha] == f.senha;
    assert |f.senha| >= MinSenhaLength;
  }

  class CadastroActivity {
    var etNome: string
    var etTelefone: string
    var etSenha: string
    var etConfirmarSenha: string

    function Fields(): Form
      reads this
    {
      Form(etNome, etTelefone, etSenha, etConfirmarSenha)
    }

    constructor ()
      ensures Fields() == Form("", "", "", "")
    {
      etNome, etTelefone, etSenha, etConfirmarSenha := "", "", "", "";
    }

    /** `salvarDados()`: the trimmed name, the trimmed phone and the raw
        password go in through the editor, with `primeiro_acesso` false, and
        are applied together. */
    method SalvarDados(prefs: SharedPreferences)
      modifies prefs
      ensures prefs.strings == SavedStrings(old(prefs.strings), Fields())
      ensures prefs.booleans == old(prefs.booleans)[KeyPrimeiroAcesso := false]
    {
      ghost var m, b := prefs.strings, prefs.booleans;
      var nome, telefone := Text.Trim(etNome), Text.Trim(etTelefone);
      var editor := NewEditor;
      assert m + editor.strings == m && b + editor.booleans == b;
      ApplyPutString(m, editor, KeyNomeUsuario, nome);
      editor := editor.PutString(KeyNomeUsuario, nome);
      ApplyPutString(m, editor, KeyTelefone, telefone);
      editor := editor.PutString(KeyTelefone, telefone);
      ApplyPutString(m, editor, KeySenha, etSenha);
      editor := editor.PutString(KeySenha, etSenha);
      ApplyPutBoolean(b, editor, KeyPrimeiroAcesso, false);
      editor := editor.PutBoolean(KeyPrimeiroAcesso, false);
      assert m + editor.strings == SavedStrings(m, Fields());
      prefs.Apply(editor);
    }

    /** The "Salvar" click: save and go to the login screen only when every
        check passes; otherwise show the first failure and store nothing. */
    method OnSalvarClick(prefs: SharedPreferences) returns (r: Option<CadastroError>)
      modifies prefs
      ensures r == ValidarCampos(Fields())
      ensures r.None? ==>
        && prefs.strings == SavedStrings(old(prefs.strings), Fields())
        && prefs.booleans == old(prefs.booleans)[KeyPrimeiroAcesso := false]
      ensures r.Some? ==> prefs.strings == old(prefs.strings) && prefs.booleans == old(prefs.booleans)
    {
      r := ValidarCampos(Fields());
      if r.None? {
        SalvarDados(prefs);
      }
    }
  }
}
