/**
 * The notification step of `realizar_sorteio`: one e-mail per pairing, sent
 * in the order of the pairing, stopping at the first e-mail that fails.
 * The SMTP session itself is an oracle `deliver` that reports whether the
 * message went out.
 */
module Notify {
  import opened Registration

  /** `email_config`: the sender address and app password, as typed in. */
  datatype SenderConfig = SenderConfig(email: string, password: string)

  /**
   * What one e-mail carries: the giver's address, the name they drew and the
   * drawn person's record (suggestions and amount range go into the body).
   */
  datatype Notification = Notification(to: string, friend: string, info: Participant)

  /** Both the sender address and the password are non-empty. */
  predicate Configured(sender: SenderConfig) {
    sender.email != [] && sender.password != []
  }

  /**
   * The result of `enviar_email`: False when the sender is not configured,
   * otherwise what the transport reports.
   */
  predicate Sent(sender: SenderConfig, deliver: Notification -> bool, note: Notification) {
    Configured(sender) && deliver(note)
  }

  /**
   * How many e-mails a run that halts at the first failure attempts: all of
   * them when every one goes out, otherwise up to and including the first
   * one that fails, of which all but the last went out.
   */
  function SendsUntilFailure(notes: seq<Notification>, sender: SenderConfig, deliver: Notification -> bool)
    : (k: nat)
    ensures k <= |notes|
    ensures forall i | 0 <= i < k - 1 :: Sent(sender, deliver, notes[i])
    ensures k < |notes| ==> 0 < k && !Sent(sender, deliver, notes[k - 1])
    ensures k == |notes| <==> forall i | 0 <= i < |notes| - 1 :: Sent(sender, deliver, notes[i])
  {
    if notes == [] then
      0
    else if !Sent(sender, deliver, notes[0]) then
      1
    else
      var rest := SendsUntilFailure(notes[1..], sender, deliver);
      assert forall i | 1 <= i < |notes| :: notes[1..][i - 1] == notes[i];
      1 + rest
  }

  /**
   * The loop `for pessoa, amigo in sorteio.items()` with its `break`: it sends
   * `notes` in order and reports success exactly when every e-mail went out.
   * After a failure it stops: the failed e-mail is the last one attempted and
   * all before it went out.
   */
  method NotifyAll(notes: seq<Notification>, sender: SenderConfig, deliver: Notification -> bool)
    returns (success: bool, attempts: nat)
    ensures success <==> forall i | 0 <= i < |notes| :: Sent(sender, deliver, notes[i])
    ensures attempts == SendsUntilFailure(notes, sender, deliver)
    ensures success ==> attempts == |notes|
    ensures !success ==> 0 < attempts <= |notes| && !Sent(sender, deliver, notes[attempts - 1])
  {
    success := true;
    attempts := 0;
    while attempts < |notes|
      invariant attempts <= |notes|
      invariant forall i | 0 <= i < attempts :: Sent(sender, deliver, notes[i])
      invariant SendsUntilFailure(notes, sender, deliver)
        == attempts + SendsUntilFailure(notes[attempts..], sender, deliver)
    {
      var sent := Configured(sender) && deliver(notes[attempts]);
      assert notes[attempts..][1..] == notes[attempts + 1..];
      attempts := attempts + 1;
      if !sent {
        success := false;
        break;
      }
    }
  }

  /**
   * Four e-mails, the second of which fails: two are attempted, exactly one
   * went out, and the last two are never sent.
   */
  lemma SecondOfFourFails(notes: seq<Notification>, sender: SenderConfig, deliver: Notification -> bool)
    requires |notes| == 4
    requires Sent(sender, deliver, notes[0]) && !Sent(sender, deliver, notes[1])
    ensures SendsUntilFailure(notes, sender, deliver) == 2
  {
    assert notes[1..][0] == notes[1];
  }
}
