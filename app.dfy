/**
 * The session object `AmigoSecreto` without its widgets: the participant
 * dictionary, the sender configuration typed in the draw tab, and the
 * buttons of the last local draw. `Register`, `Remove`, `DrawAndNotify`,
 * `DrawLocal` and `ShowFriend` are one button callback each; `Store` is the
 * dict assignment `Register` ends with, and `CyclicDrawAndSend` is the part
 * of `DrawAndNotify` after its two checks.
 */
module SecretSanta {
  import opened Wrappers
  import opened Seqs
  import opened PyText
  import opened Registration
  import opened Pairing
  import opened Notify
  import opened Reveal

  /** Why a draw is refused before any pairing is built. */
  datatype DrawError =
    | TooFewParticipants   // "É necessário pelo menos 2 participantes!"
    | SenderNotConfigured  // "Configure o email remetente e senha!"

  /** How a click on "Remover Selecionado" ends. */
  datatype Removal =
    | NothingSelected  // "Selecione um participante para remover!"
    | KeyError         // the selected name is not a key of the dict
    | Removed

  /** The outcome of the e-mail draw. */
  datatype EmailDraw =
    | EmailRefused(reason: DrawError)
    | Dispatched(order: seq<string>, pairing: map<string, string>, attempts: nat, allSent: bool)

  /** The outcome of the local draw. */
  datatype LocalDraw =
    | LocalRefused
    | GaveUp
    | Drawn(assignment: seq<string>)

  /** The e-mails of a draw, in the order of `sorteio.items()`, which is the shuffled order. */
  function Notices(givers: seq<string>, pairing: map<string, string>, registry: map<string, Participant>)
    : seq<Notification>
    requires forall i | 0 <= i < |givers| ::
      givers[i] in registry && givers[i] in pairing && pairing[givers[i]] in registry
  {
    seq(|givers|, i requires 0 <= i < |givers| =>
      Notification(registry[givers[i]].email, pairing[givers[i]], registry[pairing[givers[i]]]))
  }

  /**
   * A dict of participants with its key order: the keys are listed once
   * each, and each record is stored under its own name.
   */
  ghost predicate IsRegistry(participants: map<string, Participant>, order: seq<string>) {
    && Distinct(order)
    && (forall x :: x in participants <==> x in order)
    && |order| == |participants|
    && (forall x | x in participants :: participants[x].name == x)
  }

  /** Storing a record under a new name keeps the registry well formed. */
  lemma InsertKeepsRegistry(participants: map<string, Participant>, order: seq<string>, p: Participant)
    requires IsRegistry(participants, order) && p.name !in participants
    ensures IsRegistry(participants[p.name := p], order + [p.name])
  {
    DistinctAppend(order, p.name);
  }

  /** Deleting a registered name keeps the registry well formed. */
  lemma DeleteKeepsRegistry(participants: map<string, Participant>, order: seq<string>, name: string)
    requires IsRegistry(participants, order) && name in participants
    ensures IsRegistry(participants - {name}, Without(order, name))
    ensures |participants - {name}| == |participants| - 1
  {
    assert participants.Keys - {name} == (participants - {name}).Keys;
  }

  /**
   * Removing a participant right after registering them gives back the
   * registry as it was, key order included.
   */
  lemma RemoveUndoesInsert(participants: map<string, Participant>, order: seq<string>, p: Participant)
    requires IsRegistry(participants, order) && p.name !in participants
    ensures participants[p.name := p] - {p.name} == participants
    ensures Without(order + [p.name], p.name) == order
  {
    WithoutAppended(order, p.name);
  }

  /**
   * After the shuffle, every giver and every receiver of the cyclic pairing
   * is a registered name, so the e-mail loop can look both up.
   */
  lemma ShuffledNamesRegistered(order: seq<string>, nomes: seq<string>,
                                pairing: map<string, string>, registry: map<string, Participant>)
    requires multiset(nomes) == multiset(order)
    requires forall x :: x in registry <==> x in order
    requires IsCyclicPairing(nomes, pairing)
    ensures forall i | 0 <= i < |nomes| ::
      nomes[i] in registry && nomes[i] in pairing && pairing[nomes[i]] in registry
  {
    forall i | 0 <= i < |nomes|
      ensures nomes[i] in registry && nomes[i] in pairing && pairing[nomes[i]] in registry
    {
      var j := Next(i, |nomes|);
      assert pairing[nomes[i]] == nomes[j];
      assert nomes[i] in multiset(order) && nomes[j] in multiset(order);
    }
  }

  /**
   * The shuffled list of a well-formed registry holds every registered name
   * exactly once.
   */
  lemma ShuffledNamesAreTheRegistry(order: seq<string>, registry: map<string, Participant>, givers: seq<string>)
    requires IsRegistry(registry, order)
    requires multiset(givers) == multiset(order)
    ensures Distinct(givers) && |givers| == |registry|
    ensures forall x :: x in registry <==> x in givers
  {
    assert |givers| == |multiset(givers)| == |multiset(order)| == |order|;
    PermutationKeepsDistinct(order, givers);
    PermutationKeepsElements(order, givers);
  }

  /**
   * The e-mails of a cyclic draw over at least two distinct names, in a
   * registry that stores each record under its own name: each goes to the
   * giver's own address, nobody is told their own name, no two givers are
   * told the same name, and the record attached is the one of the friend
   * named.
   */
  lemma CyclicNoticesTellEachTheirFriend(givers: seq<string>, pairing: map<string, string>,
                                         registry: map<string, Participant>)
    requires Distinct(givers) && |givers| >= 2 && IsCyclicPairing(givers, pairing)
    requires forall x | x in registry :: registry[x].name == x
    requires forall i | 0 <= i < |givers| ::
      givers[i] in registry && givers[i] in pairing && pairing[givers[i]] in registry
    ensures var notes := Notices(givers, pairing, registry);
      && (forall i | 0 <= i < |notes| ::
            && notes[i].to == registry[givers[i]].email
            && notes[i].friend != givers[i]
            && notes[i].friend in registry
            && notes[i].info.name == notes[i].friend)
      && (forall i, j | 0 <= i < j < |notes| :: notes[i].friend != notes[j].friend)
  {
    var notes := Notices(givers, pairing, registry);
    forall i | 0 <= i < |notes|
      ensures notes[i].friend != givers[i] && notes[i].info.name == notes[i].friend
    {
      CyclicNoSelfPair(givers, pairing, i);
    }
    forall i, j | 0 <= i < j < |notes| ensures notes[i].friend != notes[j].friend {
      CyclicOneToOne(givers, pairing, i, j);
    }
  }

  /**
   * What a completed e-mail draw did: `order` was rearranged, each name was
   * paired with the next one round the circle, and the e-mails went out in
   * that order until the first failure.
   */
  ghost predicate IsCyclicDrawAndSend(order: seq<string>, registry: map<string, Participant>,
                                      sender: SenderConfig, deliver: Notification -> bool, outcome: EmailDraw)
  {
    && outcome.Dispatched?
    && multiset(outcome.order) == multiset(order)
    && Distinct(outcome.order)
    && IsCyclicPairing(outcome.order, outcome.pairing)
    && (forall i | 0 <= i < |outcome.order| ::
         && outcome.order[i] in registry
         && outcome.order[i] in outcome.pairing
         && outcome.pairing[outcome.order[i]] in registry)
    && var notes := Notices(outcome.order, outcome.pairing, registry);
    && outcome.attempts == SendsUntilFailure(notes, sender, deliver)
    && (outcome.allSent <==> forall i | 0 <= i < |notes| :: Sent(sender, deliver, notes[i]))
  }

  /**
   * The body of `realizar_sorteio` past its two checks: shuffle the
   * registered names once, pair them round the circle, send the e-mails.
   */
  method CyclicDrawAndSend(order: seq<string>, registry: map<string, Participant>, sender: SenderConfig,
                           rng: (nat, nat) -> nat, deliver: Notification -> bool)
    returns (outcome: EmailDraw)
    requires Distinct(order) && forall x :: x in registry <==> x in order
    ensures IsCyclicDrawAndSend(order, registry, sender, deliver, outcome)
  {
    var a := new string[|order|](i requires 0 <= i < |order| => order[i]);
    assert a[..] == order;
    Shuffle(a, rng, 0);
    var nomes := a[..];
    PermutationKeepsDistinct(order, nomes);
    var pairing := CyclicPairing(nomes);
    ShuffledNamesRegistered(order, nomes, pairing, registry);
    var notes := Notices(nomes, pairing, registry);
    var allSent, attempts := NotifyAll(notes, sender, deliver);
    outcome := Dispatched(nomes, pairing, attempts, allSent);
  }

  class AmigoSecreto {
    /** `self.participantes`: name to record. */
    var participants: map<string, Participant>
    /** The insertion order of the keys of `self.participantes`. */
    var order: seq<string>
    /** `self.email_config`. */
    var sender: SenderConfig
    /** `self.resultados_botoes`, from the last local draw. */
    var board: map<string, RevealEntry>

    /** The registry is well formed and every button's text agrees with its flag. */
    ghost predicate Valid()
      reads this
    {
      && IsRegistry(participants, order)
      && (forall x | x in board :: Consistent(x, board[x]))
    }

    constructor ()
      ensures Valid()
      ensures participants == map[] && order == [] && board == map[]
      ensures sender == SenderConfig("", "")
    {
      participants := map[];
      order := [];
      sender := SenderConfig("", "");
      board := map[];
    }

    /** `self.participantes[nome] = ...` for a name not yet registered: it becomes the last key. */
    method Store(p: Participant)
      requires Valid() && p.name !in participants
      modifies this
      ensures Valid()
      ensures participants == old(participants)[p.name := p] && order == old(order) + [p.name]
      ensures |participants| == |old(participants)| + 1
      ensures sender == old(sender) && board == old(board)
    {
      InsertKeepsRegistry(participants, order, p);
      participants := participants[p.name := p];
      order := order + [p.name];
    }

    /**
     * `cadastrar_participante`: runs the checks of `Admit` and, when they pass,
     * stores the record under its stripped name, which becomes the last key.
     * A refused registration changes nothing.
     */
    method Register(form: Form, parse: string -> Option<Amount>)
      returns (r: Result<Participant, RegistrationError>)
      requires Valid()
      modifies this
      ensures Valid()
      ensures r == Admit(old(participants).Keys, form, parse)
      ensures r.Success? ==>
        && participants == old(participants)[r.value.name := r.value]
        && order == old(order) + [r.value.name]
        && |participants| == |old(participants)| + 1
      ensures r.Failure? ==> participants == old(participants) && order == old(order)
      ensures sender == old(sender) && board == old(board)
    {
      r := Admit(participants.Keys, form, parse);
      if r.Success? {
        Store(r.value);
      }
    }

    /**
     * `remover_participante`: with nothing selected nothing changes; a
     * selected name that is not a key makes `del` raise `KeyError` before
     * anything changes; otherwise exactly that name is deleted and every
     * other entry stays as it was.
     */
    method Remove(selection: Option<string>) returns (outcome: Removal)
      requires Valid()
      modifies this
      ensures Valid()
      ensures selection.None? ==>
        outcome == NothingSelected && participants == old(participants) && order == old(order)
      ensures selection.Some? && selection.value !in old(participants) ==>
        outcome == KeyError && participants == old(participants) && order == old(order)
      ensures selection.Some? && selection.value in old(participants) ==>
        && outcome == Removed
        && participants == old(participants) - {selection.value}
        && order == Without(old(order), selection.value)
        && |participants| == |old(participants)| - 1
      ensures sender == old(sender) && board == old(board)
    {
      if selection.None? {
        return NothingSelected;
      }
      var name := selection.value;
      if name !in participants {
        return KeyError;
      }
      DeleteKeepsRegistry(participants, order, name);
      participants := participants - {name};
      order := Without(order, name);
      outcome := Removed;
    }

    /**
     * `realizar_sorteio`: refuses with fewer than two participants, then
     * stores the stripped sender fields and refuses if either is empty;
     * otherwise draws and sends as `CyclicDrawAndSend` does.
     */
    method DrawAndNotify(emailField: string, passwordField: string,
                         rng: (nat, nat) -> nat, deliver: Notification -> bool)
      returns (outcome: EmailDraw)
      requires Valid()
      modifies this
      ensures Valid()
      ensures participants == old(participants) && order == old(order) && board == old(board)
      ensures |participants| < 2 ==> outcome == EmailRefused(TooFewParticipants) && sender == old(sender)
      ensures |participants| >= 2 ==> sender == SenderConfig(Strip(emailField), Strip(passwordField))
      ensures |participants| >= 2 && !Configured(sender) ==> outcome == EmailRefused(SenderNotConfigured)
      ensures |participants| >= 2 && Configured(sender) ==>
        outcome.Dispatched? && IsCyclicDrawAndSend(order, participants, sender, deliver, outcome)
    {
      if |participants| < 2 {
        return EmailRefused(TooFewParticipants);
      }
      sender := SenderConfig(Strip(emailField), Strip(passwordField));
      if !Configured(sender) {
        return EmailRefused(SenderNotConfigured);
      }
      outcome := CyclicDrawAndSend(order, participants, sender, rng, deliver);
    }

    /**
     * `realizar_sorteio_local`: refuses with fewer than two participants;
     * otherwise reshuffles a copy of the names until nobody is at their own
     * position (at most `maxShuffles` times) and replaces the result buttons
     * with one hidden button per name. `tried` holds the arrangement after
     * each shuffle: the draw ends with the first one that has no collision,
     * and gives up only when all `maxShuffles` of them had one.
     */
    method DrawLocal(rng: (nat, nat) -> nat, maxShuffles: nat)
      returns (outcome: LocalDraw, ghost tried: seq<seq<string>>)
      requires Valid()
      modifies this
      ensures Valid()
      ensures participants == old(participants) && order == old(order) && sender == old(sender)
      ensures |participants| < 2 <==> outcome == LocalRefused
      ensures outcome == LocalRefused ==> tried == []
      ensures |tried| <= maxShuffles
      ensures forall k | 0 <= k < |tried| :: multiset(tried[k]) == multiset(order)
      ensures forall k | 0 <= k < |tried| - 1 :: HasCollision(order, tried[k])
      ensures outcome == GaveUp ==>
        |tried| == maxShuffles && forall k | 0 <= k < |tried| :: HasCollision(order, tried[k])
      ensures !outcome.Drawn? ==> board == old(board)
      ensures outcome.Drawn? ==>
        && |tried| >= 1
        && outcome.assignment == tried[|tried| - 1]
        && IsDerangementOf(order, outcome.assignment)
        && IsFreshBoard(order, outcome.assignment, board)
    {
      tried := [];
      if |participants| < 2 {
        return LocalRefused, tried;
      }
      var sorteio, shuffles;
      sorteio, shuffles, tried := RejectionDraw(order, rng, maxShuffles);
      if sorteio.None? {
        return GaveUp, tried;
      }
      var buttons := RevealBoard(order, sorteio.value);
      FreshBoardIsHidden(order, sorteio.value, buttons);
      board := buttons;
      outcome := Drawn(sorteio.value);
    }

    /**
     * `mostrar_amigo_secreto(nome, amigo)`, the button of `name`, whose
     * callback was created with the friend drawn for `name`: flips that one
     * entry and leaves every other entry as it was.
     */
    method ShowFriend(name: string, friend: string)
      requires Valid()
      requires name in board && board[name].friend == friend
      modifies this
      ensures Valid()
      ensures board == old(board)[name := Toggled(name, old(board)[name])]
      ensures participants == old(participants) && order == old(order) && sender == old(sender)
    {
      var entry := board[name];
      if !entry.revealed {
        board := board[name := entry.(text := name + " \U{2192} " + friend, revealed := true)];
      } else {
        board := board[name := entry.(text := name, revealed := false)];
      }
    }
  }
}
