/** The security-question recovery screen: stage 1 asks the question, stage 2
    takes a new password and stores it in the secure store. */
module RecoveryScreen {
  import opened Platform
  import Text

  /** `SECURITY_ANSWER`, fixed in the code. */
  const SecurityAnswer: string := "minhaprimeiraprograma"

  /** `PASSWORD_KEY`: the secure-store key of the password. */
  const PasswordKey: string := "userPassword"

  const MinPasswordLength: nat := 4

  /** `answer.toLowerCase().trim() === SECURITY_ANSWER`. */
  predicate AnswerAccepted(answer: string)
    ensures AnswerAccepted(answer) ==> |answer| >= |SecurityAnswer|
  {
    Text.Trim(Text.ToLower(answer)) == SecurityAnswer
  }

  /** An accepted answer is the security answer in some letter case, padded
      with whitespace. */
  lemma AcceptedAnswerShape(answer: string) returns (front: string, back: string)
    requires AnswerAccepted(answer)
    ensures Text.AllWhitespace(front) && Text.AllWhitespace(back)
    ensures Text.ToLower(answer) == front + SecurityAnswer + back
  {
    front, back := Text.TrimDecompose(Text.ToLower(answer));
  }

  /** Case and surrounding whitespace in the typed answer do not matter. */
  lemma AnswerIgnoresCaseAndPadding(front: string, s: string, back: string)
    requires Text.AllWhitespace(front) && Text.AllWhitespace(back)
    ensures AnswerAccepted(front + s + back) == AnswerAccepted(s)
    ensures AnswerAccepted(Text.ToLower(s)) == AnswerAccepted(s)
  {
    Text.ToLowerAppend(front + s, back);
    Text.ToLowerAppend(front, s);
    Text.ToLowerKeepsWhitespace(front);
    Text.ToLowerKeepsWhitespace(back);
    Text.TrimIgnoresPadding(front, Text.ToLower(s), back);
    Text.ToLowerIdempotent(s);
  }

  /** The converse of `AcceptedAnswerShape`: any padding of any spelling of
      the answer whose lower-case form is the security answer is accepted. */
  lemma PaddedAnswerAccepted(front: string, s: string, back: string)
    requires Text.AllWhitespace(front) && Text.AllWhitespace(back)
    requires Text.ToLower(s) == SecurityAnswer
    ensures AnswerAccepted(front + s + back)
  {
    Text.ToLowerAppend(front + s, back);
    Text.ToLowerAppend(front, s);
    Text.ToLowerKeepsWhitespace(front);
    Text.ToLowerKeepsWhitespace(back);
    SecurityAnswerTrimmed();
    Text.TrimOfPadded(front, SecurityAnswer, back);
  }

  lemma SecurityAnswerTrimmed()
    ensures Text.IsTrimmed(SecurityAnswer)
  {
    var a := SecurityAnswer;
    assert |a| == 21 && a[0] == 'm' && a[20] == 'a';
  }

  /** The security answer is already in lower case. */
  lemma SecurityAnswerLowerCase()
    ensures Text.ToLower(SecurityAnswer) == SecurityAnswer
  {
    var a := SecurityAnswer;
    forall i | 0 <= i < |a|
      ensures !('A' <= a[i] <= 'Z')
    {
    }
    Text.ToLowerOfLowerCase(a);
  }

  /** A leading space is forgiven. */
  lemma LeadingSpaceAccepted(s: string)
    requires Text.ToLower(s) == SecurityAnswer
    ensures AnswerAccepted(" " + s)
  {
    var space := " ";
    assert Text.AllWhitespace(space);
    PaddedAnswerAccepted(space, s, []);
    assert space + s + [] == space + s;
  }

  /** The form the screen renders. */
  datatype Form = QuestionForm | NewPasswordForm

  /** The alert each handler ends with. */
  datatype Notice =
    | AnswerCorrect      // "Sucesso!": now set the new password
    | AnswerIncorrect    // "Erro": wrong answer
    | PasswordTooShort   // "Erro": at least 4 characters
    | PasswordReset      // "Sucesso!", then back to the login screen
    | SaveFailed         // "Erro": the password could not be saved

  class RecoveryScreen {
    var answer: string
    var newPassword: string
    var stage: int

    ghost predicate Valid()
      reads this
    {
      stage == 1 || stage == 2
    }

    /** Stage 1 shows the question and its answer field; stage 2 the new
        password field. */
    function Shown(): (f: Form)
      reads this
      requires Valid()
      ensures f == QuestionForm <==> stage == 1
    {
      if stage == 1 then QuestionForm else NewPasswordForm
    }

    constructor ()
      ensures Valid() && stage == 1 && answer == "" && newPassword == ""
    {
      answer := "";
      newPassword := "";
      stage := 1;
    }

    /** `onChangeText={setAnswer}` of the field shown in stage 1. */
    method SetAnswer(text: string)
      requires Valid() && Shown() == QuestionForm
      modifies this
      ensures Valid() && answer == text && newPassword == old(newPassword) && stage == old(stage)
    {
      answer := text;
    }

    /** `onChangeText={setNewPassword}` of the field shown in stage 2. */
    method SetNewPassword(text: string)
      requires Valid() && Shown() == NewPasswordForm
      modifies this
      ensures Valid() && newPassword == text && answer == old(answer) && stage == old(stage)
    {
      newPassword := text;
    }

    /** `handleVerify()`: stage 2 exactly when the answer is accepted; a wrong
        answer leaves the stage as it was. */
    method HandleVerify() returns (n: Notice)
      requires Valid() && Shown() == QuestionForm
      modifies this
      ensures Valid() && answer == old(answer) && newPassword == old(newPassword)
      ensures n == AnswerCorrect || n == AnswerIncorrect
      ensures n == AnswerCorrect <==> AnswerAccepted(answer)
      ensures stage == if AnswerAccepted(answer) then 2 else old(stage)
    {
      if AnswerAccepted(answer) {
        stage := 2;
        n := AnswerCorrect;
      } else {
        n := AnswerIncorrect;
      }
    }

    /** `handleResetPassword()`: a password of fewer than 4 characters is
        rejected and nothing is stored; otherwise it overwrites the value
        under `userPassword`. */
    method HandleResetPassword(dev: Device, fault: bool) returns (n: Notice)
      requires Valid() && Shown() == NewPasswordForm
      modifies dev
      ensures dev.disk == old(dev.disk) && dev.book == old(dev.book)
      ensures n == PasswordTooShort || n == PasswordReset || n == SaveFailed
      ensures n == PasswordTooShort <==> |newPassword| < MinPasswordLength
      ensures n == PasswordReset <==> |newPassword| >= MinPasswordLength && !fault
      ensures dev.secure == if n == PasswordReset then old(dev.secure)[PasswordKey := newPassword] else old(dev.secure)
    {
      if |newPassword| < MinPasswordLength {
        return PasswordTooShort;
      }
      var ok := dev.SetSecureItem(PasswordKey, newPassword, fault);
      n := if ok then PasswordReset else SaveFailed;
    }
  }
}
