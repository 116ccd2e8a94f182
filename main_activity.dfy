/** The Android login screen: the password gate, the first-start redirect
    and password recovery by SMS. */
module MainActivity {
  import opened Preferences

  /** `getSenhaArmazenada()`: the stored password, "" when none is stored. */
  function GetSenhaArmazenada(strings: map<string, string>): (senha: string)
    ensures KeySenha in strings ==> senha == strings[KeySenha]
    ensures KeySenha !in strings ==> senha == ""
  {
    GetString(strings, KeySenha, "")
  }

  /** `validarSenha(senha)`: exact equality with the stored password. */
  function ValidarSenha(strings: map<string, string>, senha: string): (ok: bool)
    ensures ok <==> if KeySenha in strings then senha == strings[KeySenha] else senha == ""
  {
    senha == GetSenhaArmazenada(strings)
  }

  /** `isFirstTime()`: no password stored, or an empty one. */
  function IsFirstTime(strings: map<string, string>): (first: bool)
    ensures first <==> KeySenha !in strings || strings[KeySenha] == ""
    ensures first <==> ValidarSenha(strings, "")
  {
    GetString(strings, KeySenha, "") == ""
  }

  /** Where a screen action leads. */
  datatype Destination = StayOnLogin | OpenAgenda | OpenCadastro

  /** The first-start check at the end of `onCreate`. */
  function OnCreate(strings: map<string, string>): (d: Destination)
    ensures d == OpenCadastro <==> IsFirstTime(strings)
    ensures d != OpenAgenda
  {
    if IsFirstTime(strings) then OpenCadastro else StayOnLogin
  }

  class MainActivity {
    /** The text of the `etSenha` field. */
    var etSenha: string

    constructor ()
      ensures etSenha == ""
    {
      etSenha := "";
    }

    /** The "Entrar" click: the right password opens the agenda; a wrong one
        shows "Senha incorreta!", clears the field and stays. */
    method OnEntrarClick(prefs: SharedPreferences) returns (d: Destination)
      modifies this
      ensures d == OpenAgenda <==> ValidarSenha(prefs.strings, old(etSenha))
      ensures d == OpenAgenda || d == StayOnLogin
      ensures etSenha == if d == OpenAgenda then old(etSenha) else ""
    {
      var senha := etSenha;
      if ValidarSenha(prefs.strings, senha) {
        d := OpenAgenda;
      } else {
        etSenha := "";
        d := StayOnLogin;
      }
    }
  }

  /** The fixed start of the recovery SMS. */
  const SmsPrefix: string := "AgendaSegura - Sua senha é: "

  datatype SmsOutcome =
    | NoPhone                               // "Nenhum telefone cadastrado!"
    | NoPermission                          // "Permissão de SMS não concedida!"
    | SmsSent(to: string, message: string)  // "SMS enviado para ..."
    | SmsFailed(to: string, message: string) // "Erro ao enviar SMS: ..."

  /** `recuperarSenhaViaSMS()`: with no stored phone nothing is sent;
      otherwise, when SMS is permitted, the stored password is sent to the
      stored phone after the fixed prefix. */
  function RecuperarSenhaViaSms(strings: map<string, string>, smsPermitted: bool, sendFault: bool): (o: SmsOutcome)
    ensures o == NoPhone <==> GetString(strings, KeyTelefone, "") == ""
    ensures o == NoPermission <==> GetString(strings, KeyTelefone, "") != "" && !smsPermitted
    ensures o.SmsSent? <==> GetString(strings, KeyTelefone, "") != "" && smsPermitted && !sendFault
    ensures (o.SmsSent? || o.SmsFailed?) ==>
      && KeyTelefone in strings && o.to == strings[KeyTelefone]
      && |o.message| == |SmsPrefix| + |GetSenhaArmazenada(strings)|
      && o.message[..|SmsPrefix|] == SmsPrefix
      && o.message[|SmsPrefix|..] == GetSenhaArmazenada(strings)
  {
    var telefone := GetString(strings, KeyTelefone, "");
    var senha := GetString(strings, KeySenha, "");
    if telefone == "" then NoPhone
    else if !smsPermitted then NoPermission
    else
      var mensagem := SmsPrefix + senha;
      if sendFault then SmsFailed(telefone, mensagem) else SmsSent(telefone, mensagem)
  }
}
