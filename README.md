# AmigoSecreto — a verified model of the secret-santa session

AmigoSecreto is a desktop secret-santa organiser. One `AmigoSecreto` object
holds:

- a dictionary of participants, keyed by name;
- the sender address and app password typed into the draw tab;
- after a local draw, one toggle button per participant.

Its button callbacks register and remove participants. They also run two
draws. The e-mail draw shuffles the names once and pairs each name with the
next one round the circle, then e-mails every giver until the first failure.
The local draw reshuffles a copy of the names until nobody sits at their own
position, then shows one hide/reveal button per name.

This project models that core in Dafny and proves what it promises. The
files are:

- `wrappers.dfy`: `Option` and `Result`.
- `seqs.dfy`: facts about sequences without repetitions (module `Seqs`).
- `pytext.dfy`: Python's `str.strip()` with the `str.isspace()` character
  set.
- `registration.dfy`: the `Participante` record, the three checks of a
  registration, and the key order of a dict after `del`.
- `pairing.dfy`: `random.shuffle` (CPython's Fisher–Yates), the cyclic
  pairing and the rejection-sampling draw.
- `notify.dfy`: the sender configuration, the `enviar_email` guard and the
  send loop that stops at the first failure.
- `reveal.dfy`: the result buttons of the local draw and their toggle.
- `app.dfy`: the class `AmigoSecreto`, whose fields are the dictionary, its
  key order, the sender configuration and the result buttons. `Register`,
  `Remove`, `DrawAndNotify`, `DrawLocal` and `ShowFriend` are one callback
  each. `Store` is the dict assignment that `Register` ends with.

The model replaces what cannot be seen with parameters:

- `parse` stands for `float(...)`; `None` means `ValueError`.
- `rng(round, i)` is the random number `random.shuffle` draws for position
  `i` in the `round`-th shuffle of one draw.
- `deliver` stands for the SMTP session: it tells whether one message went
  out.

Python's dict keeps its keys in insertion order. That order is visible,
because `list(self.participantes.keys())` is what gets shuffled. The class
therefore keeps it as the field `order`, next to the map `participants`.
`Valid()` ties the two together: the keys are listed once each, and every
record is stored under its own name.

## Model

| member | source | states |
|---|---|---|
| PyText.Strip | interface.py:190-192 | the result is the slice of the input between a prefix and a suffix that are all whitespace, and it neither starts nor ends with whitespace |
| PyText.StripEmptyIffBlank | interface.py:203 | a stripped field is empty exactly when the typed text was all whitespace, so `not all([nome, email])` refuses exactly the blank fields |
| PyText.StripIdempotent | interface.py:190-192 | stripping an already stripped text changes nothing |
| Registration.Admit | interface.py:190-210 | a form is accepted iff both amounts parse, name and e-mail are not blank and the stripped name is not registered; the accepted record holds the stripped texts and the parsed amounts, with non-empty name and e-mail |
| Registration.AdmitRefusesInOrder | interface.py:195-210 | the checks run in source order: an unparsable amount is reported first, a blank name or e-mail only when both amounts parse, a duplicate name only when all else is in order |
| Registration.Without | interface.py:248 | after `del d[x]` the keys are exactly the old keys other than `x`; nothing changes when `x` is absent; there is one key fewer when it was present, and keys stay distinct (the relative order is kept by the definition, a left-to-right filter; `WithoutAppended` states the order fact the model relies on) |
| Registration.WithoutAppended | interface.py:213-248 | deleting the key inserted last gives back the earlier key order |
| SecretSanta.InsertKeepsRegistry | interface.py:213 | storing a record under a new name keeps the keys distinct and in step with the map, with the new name last |
| SecretSanta.DeleteKeepsRegistry | interface.py:248 | deleting a registered name keeps the registry well formed and lowers its size by one |
| SecretSanta.RemoveUndoesInsert | interface.py:213-248 | removing a participant right after registering them restores both the map and the key order |
| SecretSanta.AmigoSecreto.constructor | interface.py:38-82 | a session starts with no participants, an empty sender address and password, and no result buttons |
| SecretSanta.AmigoSecreto.Store | interface.py:213 | a record under a new name is added, its name becomes the last key, the size grows by one and nothing else changes |
| SecretSanta.AmigoSecreto.Register | interface.py:184-216 | the outcome is that of `Admit` on the current names; on success exactly the new record is added, as the last key; on any refusal the registry is unchanged |
| SecretSanta.AmigoSecreto.Remove | interface.py:238-249 | no selection changes nothing; a name that is not a key raises `KeyError` and changes nothing; otherwise exactly that key is deleted, the others keep their order and the size drops by one |
| Pairing.Shuffle | interface.py:311 | `random.shuffle` leaves the list a rearrangement (same multiset) of what it held, whatever numbers are drawn |
| Pairing.CyclicPairing | interface.py:313-315 | the dict maps the name at position i to the name at position (i + 1) mod n, and its keys are exactly the names |
| Pairing.NextIsSuccessorMod | interface.py:315 | `(i + 1) % len(nomes)` is the next position round the circle |
| Pairing.CyclicNoSelfPair | interface.py:315 | with two or more distinct names, the name at a position is not paired with itself |
| Pairing.CyclicOneToOne | interface.py:315 | names at two different positions get different receivers |
| Pairing.CyclicOnto | interface.py:315 | every name is the receiver of the name just before it round the circle |
| Pairing.CyclicPairingNoSelf | interface.py:310-315 | with at least two distinct names nobody draws themselves |
| Pairing.CyclicPairingOnto | interface.py:310-315 | the set of receivers equals the set of givers |
| Pairing.CyclicPairingInjective | interface.py:310-315 | no two givers share a receiver |
| Pairing.CyclicPairingIsDerangement | interface.py:310-315 | the cyclic pairing is a bijection of the names without fixed points |
| Pairing.FollowCyclic | interface.py:313-315 | following the pairing k <= n times from position i lands k positions further round the circle |
| Pairing.FollowNotBackEarly | interface.py:313-315 | following the pairing from a name does not return to it in fewer than n steps |
| Pairing.FollowReaches | interface.py:313-315 | every name is reached from every other in fewer than n steps |
| Pairing.CyclicPairingIsOneCycle | interface.py:310-315 | the pairing is one single cycle through all names: back after exactly n steps, not earlier, and every name is reached on the way |
| Pairing.Collides | interface.py:348 | the loop condition `any(nomes[i] == sorteio[i] ...)` is true exactly when some position holds the same name in both lists |
| Pairing.RejectionDraw | interface.py:344-349 | the arrangement after each shuffle is a rearrangement of the names, and every arrangement but the last has somebody at their own position; a returned list is the last arrangement (the names themselves if no shuffle ran) and has nobody at their own position; giving up happens only after `maxShuffles` shuffles that all collided; a list returned for a non-empty input comes after at least one shuffle, because the copy starts equal to the names |
| Pairing.SelfCollides | interface.py:345-348 | a non-empty list collides with its own copy, so the `while` condition is true on entry |
| Pairing.DerangementIsBijection | interface.py:344-349 | the result of the local draw has distinct entries, exactly the registered names, and nobody at their own position |
| Pairing.NoDerangementOfOne | interface.py:348-349 | one name has no derangement, so the local draw needs the two-participant guard |
| Pairing.PairDerangementIsSwap | interface.py:348-349 | with two names the only possible outcome is that they draw each other |
| Notify.SendsUntilFailure | interface.py:318-326 | the number of e-mails attempted: all of them when every one goes out, otherwise up to and including the first failure, with all before it sent |
| Notify.NotifyAll | interface.py:318-331 | the send loop reports success iff every e-mail went out; it makes as many attempts as `SendsUntilFailure` counts, and after a failure the last attempt is the failed one |
| Notify.SecondOfFourFails | interface.py:318-326 | with four e-mails whose second fails, exactly two are attempted |
| SecretSanta.ShuffledNamesAreTheRegistry | interface.py:310-311 | the shuffled list holds every registered name exactly once |
| SecretSanta.CyclicNoticesTellEachTheirFriend | interface.py:310-324 | in a cyclic draw of at least two names, each e-mail goes to its giver's address, nobody is told their own name, no two givers are told the same name, and the attached record is that of the friend named |
| SecretSanta.ShuffledNamesRegistered | interface.py:310-324 | after the shuffle every giver and every receiver is a registered name, so both dict lookups of the send loop succeed |
| SecretSanta.CyclicDrawAndSend | interface.py:310-326 | the names are rearranged and paired round the circle; the e-mails go out in that order until the first failure, and success is reported iff all went out |
| SecretSanta.AmigoSecreto.DrawAndNotify | interface.py:295-331 | fewer than two participants: refused, sender untouched; otherwise the stripped sender fields are stored, an empty one refuses the draw, and else the draw and send of `CyclicDrawAndSend` happens; the registry never changes |
| Reveal.RevealBoard | interface.py:366-375 | one entry per name, holding the friend drawn at the same position, hidden and showing the name |
| Reveal.FreshBoardIsHidden | interface.py:369-375 | right after a local draw every button is hidden and shows its owner's name |
| SecretSanta.AmigoSecreto.DrawLocal | interface.py:333-375 | refused iff there are fewer than two participants; every arrangement tried is a rearrangement of the registered names, and all but the last collide; a completed draw is the last arrangement, a derangement, and replaces the buttons with one hidden button per name; giving up happens only after `maxShuffles` colliding arrangements, and then the buttons are kept |
| Reveal.Toggled | interface.py:386-395 | a click flips the flag and keeps the friend; the button then reads `nome → amigo` when revealed and `nome` when hidden |
| Reveal.ToggledTwice | interface.py:386-395 | two clicks on the same button restore its entry |
| SecretSanta.AmigoSecreto.ShowFriend | interface.py:377-395 | only the clicked name's entry is toggled; every other button, the registry and the sender stay as they were |

## Left out

- The tkinter GUI: widgets, layout, message boxes, clearing the form
  (`limpar_campos_cadastro`) and refreshing the table
  (`atualizar_lista_participantes`). Each message box appears here as an
  error constructor or an outcome value.
- The e-mail itself: MIME assembly, the body text with its `:.2f`
  formatting, and the SMTP connection, login and send. `deliver` stands for
  all of them. An exception inside `enviar_email` is a `false` from
  `deliver`.
- `float(...)`: number syntax, `nan` and `inf` are not modelled. `parse` is
  a parameter, and amounts are Dafny reals. The source never compares the
  minimum with the maximum, and neither does the model.
- How random the shuffles are: only the Fisher–Yates swap structure is
  modelled, with the random numbers as a parameter.
- Pairing.RejectionDraw: makes at most `maxShuffles` shuffles and then gives
  up (`None`, and `GaveUp` in `DrawLocal`). The source loops until a
  derangement turns up, which for two or more names happens with
  probability 1 but is not bounded.
- SecretSanta.AmigoSecreto.ShowFriend: requires the clicked name to have an
  entry whose friend is the one bound into the button's callback. This holds
  for the buttons of the latest local draw. A button of an older result
  window that is still open passes its own friend. In that case the source
  writes that older friend onto the new button, and the model does not cover
  it.
- The Treeview's conversion of cell values: `tree.item(...)['values'][0]`
  can turn a name such as `"007"` into the number 7, and the `del` then
  raises `KeyError`. `Remove` receives the selected name as text and models
  the `KeyError` path only for a name that is not a key.
- A selection of several rows: the table allows it, and the whole selection
  goes to `tree.item`, which then fails with nothing removed. `Remove` takes
  at most one selected name and does not model that case.
- `resultados_botoes` does not exist until the first local draw. The model
  starts it as an empty map.
- The unused imports `json` and `datetime`, and `iniciar` (the tkinter main
  loop).
- A removal of a name that is not registered has no dedicated error type or
  warning dialog in the code. `del` raises `KeyError`, which tkinter reports
  on the console, and nothing changes. The model follows the code (outcome
  `KeyError`).
