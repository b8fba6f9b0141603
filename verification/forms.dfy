/**
 * The decisions the console forms make about values already read from the
 * terminal. Reading (fmt.Scan) and printing are not modelled: the scanned
 * values are parameters.
 */
module Forms {
  import opened Common

  /** Why a login or registration form was refused. */
  datatype FormError = EmptyField | PasswordMismatch

  /** LoginForm: both the username and the password must be non-empty. */
  function LoginForm(username: string, password: string): (r: Outcome<FormError>)
    ensures r.Pass? <==> username != [] && password != []
    ensures r.Fail? ==> r.error == EmptyField
  {
    if username == "" || password == "" then Fail(EmptyField) else Pass
  }

  /**
   * RegisterForm: all three fields must be non-empty, and only then is the
   * password compared with its confirmation.
   */
  function RegisterForm(username: string, password: string, confirm: string): (r: Outcome<FormError>)
    ensures r.Pass? <==> username != [] && password != [] && confirm != [] && password == confirm
    ensures r == Fail(EmptyField) <==> username == [] || password == [] || confirm == []
    ensures r == Fail(PasswordMismatch) <==>
              username != [] && password != [] && confirm != [] && password != confirm
  {
    if username == "" || password == "" || confirm == "" then Fail(EmptyField)
    else if password != confirm then Fail(PasswordMismatch)
    else Pass
  }

  /** A registration the form accepts is also accepted by the login form. */
  lemma RegisterFormAcceptsLogin(username: string, password: string, confirm: string)
    requires RegisterForm(username, password, confirm).Pass?
    ensures LoginForm(username, password).Pass? && password == confirm
  {
  }

  datatype MenuError = OutOfRange

  /**
   * The choice PrintMenu makes once a number has been read: the number is
   * stored in `answer` only when it is one of the options 1..n; otherwise
   * the menu errs and `answer` keeps its previous value.
   * The result pairs the outcome with the value of `answer` afterwards.
   */
  function SelectMenuOption(answer: int, input: int, n: int): (r: (Outcome<MenuError>, int))
    ensures r.0.Pass? <==> 1 <= input <= n
    ensures r.0.Pass? ==> r.1 == input && 1 <= r.1 <= n
    ensures r.0.Fail? ==> r.1 == answer
  {
    if input < 1 || input > n then (Fail(OutOfRange), answer) else (Pass, input)
  }

  /** What one answer to a yes/no prompt means. */
  datatype Confirmation = Yes | No | Invalid

  /** ConfirmForm: 1 is yes, 2 is no, any other number asks again. */
  function ConfirmChoice(input: int): (c: Confirmation)
    ensures c == Yes <==> input == 1
    ensures c == No <==> input == 2
    ensures c == Invalid <==> input != 1 && input != 2
  {
    if input == 1 then Yes else if input == 2 then No else Invalid
  }
}
