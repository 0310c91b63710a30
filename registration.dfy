/**
 * The participant record and the checks `cadastrar_participante` runs on the
 * registration form before it stores a participant.
 */
module Registration {
  import opened Wrappers
  import opened Seqs
  import opened PyText

  /** A gift amount as `float(...)` returns it; its text format is not modelled. */
  type Amount = real

  /** `Participante`: one registered person. */
  datatype Participant = Participant(
    name: string,
    email: string,
    suggestions: string,
    minAmount: Amount,
    maxAmount: Amount)

  /** The raw text of the five form fields, as the widgets return it. */
  datatype Form = Form(
    name: string,
    email: string,
    suggestions: string,
    minAmount: string,
    maxAmount: string)

  /** The three reasons a registration is refused, one per error dialog. */
  datatype RegistrationError =
    | AmountNotNumeric     // "Os valores mínimo e máximo devem ser números!"
    | MissingNameOrEmail   // "Nome e email são obrigatórios!"
    | AlreadyRegistered    // "Este participante já está cadastrado!"

  /**
   * The checks of a registration, in the order the source runs them: both
   * amounts must parse, then name and e-mail must not be blank, then the
   * stripped name must not be registered yet. `parse` stands for Python's
   * `float(...)`, which either yields a number or raises `ValueError` (None).
   * A form is accepted exactly when it passes all three, and then the result
   * is the record that gets stored: stripped texts and the parsed amounts.
   */
  function Admit(registered: set<string>, form: Form, parse: string -> Option<Amount>)
    : (r: Result<Participant, RegistrationError>)
    ensures r.Success? <==>
      && parse(form.minAmount).Some? && parse(form.maxAmount).Some?
      && !Blank(form.name) && !Blank(form.email)
      && Strip(form.name) !in registered
    ensures r.Success? ==>
      && r.value == Participant(Strip(form.name), Strip(form.email), Strip(form.suggestions),
                                parse(form.minAmount).value, parse(form.maxAmount).value)
      && r.value.name != [] && r.value.email != []
  {
    StripEmptyIffBlank(form.name);
    StripEmptyIffBlank(form.email);
    var name, email, suggestions := Strip(form.name), Strip(form.email), Strip(form.suggestions);
    var minAmount, maxAmount := parse(form.minAmount), parse(form.maxAmount);
    if minAmount.None? || maxAmount.None? then
      Failure(AmountNotNumeric)
    else if name == [] || email == [] then
      Failure(MissingNameOrEmail)
    else if name in registered then
      Failure(AlreadyRegistered)
    else
      Success(Participant(name, email, suggestions, minAmount.value, maxAmount.value))
  }

  /**
   * Which check refuses a form: an amount that does not parse is reported
   * first, a blank name or e-mail only when both amounts parse, and a
   * duplicate name only when everything else is in order.
   */
  lemma AdmitRefusesInOrder(registered: set<string>, form: Form, parse: string -> Option<Amount>)
    ensures Admit(registered, form, parse) == Failure(AmountNotNumeric)
      <==> parse(form.minAmount).None? || parse(form.maxAmount).None?
    ensures Admit(registered, form, parse) == Failure(MissingNameOrEmail)
      <==> && parse(form.minAmount).Some? && parse(form.maxAmount).Some?
           && (Blank(form.name) || Blank(form.email))
    ensures Admit(registered, form, parse) == Failure(AlreadyRegistered)
      <==> && parse(form.minAmount).Some? && parse(form.maxAmount).Some?
           && !Blank(form.name) && !Blank(form.email)
           && Strip(form.name) in registered
  {
    StripEmptyIffBlank(form.name);
    StripEmptyIffBlank(form.email);
  }

  /**
   * The insertion order of a dict's keys after `del d[x]`: `x` is gone and
   * the other keys keep their relative order.
   */
  function Without(keys: seq<string>, x: string): (r: seq<string>)
    ensures forall y :: y in r <==> y in keys && y != x
    ensures x !in keys ==> r == keys
    ensures Distinct(keys) ==> Distinct(r)
    ensures Distinct(keys) && x in keys ==> |r| == |keys| - 1
  {
    if keys == [] then
      []
    else
      var rest := Without(keys[1..], x);
      assert forall y :: y in keys <==> y == keys[0] || y in keys[1..];
      assert Distinct(keys) ==> Distinct(keys[1..]) && keys[0] !in keys[1..] by {
        if Distinct(keys) {
          forall i, j | 0 <= i < j < |keys[1..]| ensures keys[1..][i] != keys[1..][j] {
            assert keys[1..][i] == keys[i + 1] && keys[1..][j] == keys[j + 1];
          }
          forall k | 0 <= k < |keys[1..]| ensures keys[1..][k] != keys[0] {
            assert keys[1..][k] == keys[k + 1];
          }
        }
      }
      if keys[0] == x then rest else [keys[0]] + rest
  }

  /** Deleting the key that was inserted last gives back the earlier key order. */
  lemma {:induction false} WithoutAppended(keys: seq<string>, x: string)
    requires x !in keys
    ensures Without(keys + [x], x) == keys
  {
    if keys != [] {
      assert (keys + [x])[1..] == keys[1..] + [x];
      WithoutAppended(keys[1..], x);
      assert keys == [keys[0]] + keys[1..];
    }
  }
}
