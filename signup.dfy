/** The four-stage sign-up wizard of the client: per-stage validation of the form and
    the moves between stages. Stage 1 asks for name and email, stage 2 for the
    password twice, stage 3 for an optional photo (leaving it sends the verification
    mail), stage 4 for the mailed code. The outcome of the send-verification request
    is a parameter. */
module Signup {

  /** The characters String.prototype.trim removes: white space and line
      terminators. */
  predicate JsSpace(c: char) {
    || c == '\t' || c == '\n' || c == '\U{000B}' || c == '\U{000C}' || c == '\r' || c == ' '
    || c == '\U{00A0}' || c == '\U{1680}' || ('\U{2000}' <= c <= '\U{200A}')
    || c == '\U{2028}' || c == '\U{2029}' || c == '\U{202F}' || c == '\U{205F}'
    || c == '\U{3000}' || c == '\U{FEFF}'
  }

  /** Nothing but white space (the empty string included). */
  predicate Blank(s: string) {
    forall k | 0 <= k < |s| :: JsSpace(s[k])
  }

  /** s without its leading white space. */
  function TrimStart(s: string): (r: string)
    ensures |r| <= |s| && r == s[|s| - |r|..]
    ensures forall k | 0 <= k < |s| - |r| :: JsSpace(s[k])
    ensures r == [] || !JsSpace(r[0])
  {
    if s == [] || !JsSpace(s[0]) then s else TrimStart(s[1..])
  }

  /** s without its trailing white space. */
  function TrimEnd(s: string): (r: string)
    ensures |r| <= |s| && r == s[..|r|]
    ensures forall k | |r| <= k < |s| :: JsSpace(s[k])
    ensures r == [] || !JsSpace(r[|r| - 1])
  {
    if s == [] || !JsSpace(s[|s| - 1]) then s else TrimEnd(s[..|s| - 1])
  }

  function Trim(s: string): string {
    TrimEnd(TrimStart(s))
  }

  lemma {:induction false} TrimStartEmptyIffBlank(s: string)
    ensures TrimStart(s) == "" <==> Blank(s)
  {
    if s != [] && JsSpace(s[0]) {
      TrimStartEmptyIffBlank(s[1..]);
      assert Blank(s) <==> Blank(s[1..]) by {
        assert forall k | 0 <= k < |s| - 1 :: s[1..][k] == s[k + 1];
      }
    }
  }

  lemma {:induction false} TrimEndEmptyIffBlank(s: string)
    ensures TrimEnd(s) == "" <==> Blank(s)
  {
    if s != [] && JsSpace(s[|s| - 1]) {
      var init := s[..|s| - 1];
      TrimEndEmptyIffBlank(init);
      assert Blank(s) <==> Blank(init) by {
        assert forall k | 0 <= k < |init| :: init[k] == s[k];
      }
    }
  }

  /** `!s.trim()` holds exactly on blank strings. */
  lemma TrimEmptyIffBlank(s: string)
    ensures Trim(s) == "" <==> Blank(s)
  {
    var t := TrimStart(s);
    TrimStartEmptyIffBlank(s);
    TrimEndEmptyIffBlank(t);
    assert t != [] ==> !Blank(t);
  }

  /** The fields of the form. */
  datatype SignupForm = SignupForm(
    nom: string, prenom: string, email: string, mdp: string, confirmMdp: string,
    sexe: string, verificationCode: string)

  /** The outcome of validateStage, one value per error message. */
  datatype StageCheck = Passed | MissingFields | PasswordTooShort | PasswordMismatch | InvalidCode

  /** validateStage: stage 1 needs a name and an email that are not blank; stage 2
      needs both password fields, a password of at least six characters and the same
      confirmation, checked in that order; stage 4 needs a code of exactly six
      characters, digits or not; every other stage passes. */
  function ValidateStage(stage: int, f: SignupForm): (r: StageCheck)
    ensures stage == 1 ==> (r == Passed <==> !Blank(f.nom) && !Blank(f.email)) && (r == Passed || r == MissingFields)
    ensures stage == 2 ==>
      && (r == MissingFields <==> f.mdp == "" || f.confirmMdp == "")
      && (r == PasswordTooShort <==> f.mdp != "" && f.confirmMdp != "" && |f.mdp| < 6)
      && (r == PasswordMismatch <==> f.confirmMdp != "" && |f.mdp| >= 6 && f.mdp != f.confirmMdp)
      && (r == Passed <==> |f.mdp| >= 6 && f.mdp == f.confirmMdp)
    ensures stage == 4 ==> (r == Passed <==> |f.verificationCode| == 6) && (r == Passed || r == InvalidCode)
    ensures stage != 1 && stage != 2 && stage != 4 ==> r == Passed
  {
    TrimEmptyIffBlank(f.nom);
    TrimEmptyIffBlank(f.email);
    match stage
    case 1 => if Trim(f.nom) == "" || Trim(f.email) == "" then MissingFields else Passed
    case 2 =>
      if f.mdp == "" || f.confirmMdp == "" then MissingFields
      else if |f.mdp| < 6 then PasswordTooShort
      else if f.mdp != f.confirmMdp then PasswordMismatch
      else Passed
    case 4 => if f.verificationCode == "" || |f.verificationCode| != 6 then InvalidCode else Passed
    case _ => Passed
  }

  /** The password stage lets through only matching passwords of six characters or
      more, so the confirmation is that long too. */
  lemma PasswordStagePasses(f: SignupForm)
    requires ValidateStage(2, f) == Passed
    ensures |f.confirmMdp| >= 6 && f.mdp != ""
  {
  }

  /** The wizard's state: the current stage and whether a code was mailed. */
  class SignupWizard {
    var stage: int
    var verificationSent: bool

    /** The stage is one of the four rendered stages. */
    ghost predicate Valid()
      reads this
    {
      1 <= stage <= 4
    }

    constructor ()
      ensures Valid() && stage == 1 && !verificationSent
    {
      stage, verificationSent := 1, false;
    }

    /** handleNextStage, offered on stages 1 to 3: when the current stage validates,
        stage 3 first requests the verification mail and advances only if that
        request succeeds; the other stages advance at once. A failed validation or
        request leaves the stage where it was. */
    method NextStage(f: SignupForm, sendOk: bool) returns (check: StageCheck, requested: bool)
      requires Valid() && stage <= 3
      modifies this
      ensures Valid()
      ensures check == ValidateStage(old(stage), f)
      ensures requested <==> check == Passed && old(stage) == 3
      ensures stage == if check == Passed && (old(stage) != 3 || sendOk) then old(stage) + 1 else old(stage)
      ensures verificationSent == (old(verificationSent) || (requested && sendOk))
    {
      check := ValidateStage(stage, f);
      requested := false;
      if check == Passed {
        if stage == 3 {
          requested := true;
          if sendOk {
            verificationSent := true;
            stage := stage + 1;
          }
        } else {
          stage := stage + 1;
        }
      }
    }

    /** handlePrevStage, offered on stages 2 to 4: one stage back. */
    method PrevStage()
      requires Valid() && 2 <= stage
      modifies this
      ensures Valid()
      ensures stage == old(stage) - 1 && verificationSent == old(verificationSent)
    {
      stage := stage - 1;
    }
  }
}
