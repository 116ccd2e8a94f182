/** The older recovery screen: the typed answer is compared with one kept in
    the secure store. */
module RecuperacaoScreen {
  import opened Wrappers
  import RecoveryScreen
  import Text

  /** The secure-store key of the stored answer. */
  const RecoveryAnswerKey: string := "chave_secreta_recuperacao"

  /** `SecureStore.getItemAsync(key)`: `null` when the key is absent. */
  function GetItem(secure: map<string, string>, key: string): Option<string> {
    if key in secure then Some(secure[key]) else None
  }

  /** `verificarResposta()`: `respostaSalva === resposta`. Only an alert is
      shown, so the store is read and never changed. */
  function VerificarResposta(secure: map<string, string>, resposta: string): (ok: bool)
    ensures ok <==> RecoveryAnswerKey in secure && secure[RecoveryAnswerKey] == resposta
    ensures RecoveryAnswerKey !in secure ==> !ok
  {
    match GetItem(secure, RecoveryAnswerKey)
    case None => false
    case Some(respostaSalva) => respostaSalva == resposta
  }

  /** No case folding or trimming here, unlike the security-question screen:
      when the stored answer is one the security-question screen accepts, a
      leading space makes it fail here but still pass there. */
  lemma StricterThanRecoveryScreen(secure: map<string, string>, stored: string)
    requires GetItem(secure, RecoveryAnswerKey) == Some(stored)
    requires Text.ToLower(stored) == RecoveryScreen.SecurityAnswer
    ensures VerificarResposta(secure, stored)
    ensures !VerificarResposta(secure, " " + stored)
    ensures RecoveryScreen.AnswerAccepted(" " + stored)
  {
    assert |" " + stored| != |stored|;
    RecoveryScreen.LeadingSpaceAccepted(stored);
  }
}
