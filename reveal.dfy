/**
 * The result window of the local draw: one button per participant, each of
 * which toggles between showing the participant's own name and showing whom
 * they drew (`resultados_botoes` and `mostrar_amigo_secreto`).
 */
module Reveal {
  import opened Seqs

  /** One entry of `resultados_botoes`: the drawn friend, the flag and the button's text. */
  datatype RevealEntry = RevealEntry(friend: string, revealed: bool, text: string)

  /** The text a button shows: `nome → amigo` when revealed, `nome` when hidden. */
  function LabelFor(name: string, friend: string, revealed: bool): string {
    if revealed then name + " \U{2192} " + friend else name
  }

  /** The button's text agrees with its flag. */
  predicate Consistent(name: string, e: RevealEntry) {
    e.text == LabelFor(name, e.friend, e.revealed)
  }

  /**
   * One click on the button of `name` (one call of `mostrar_amigo_secreto`):
   * the flag flips, the friend stays, and the text follows the new flag.
   */
  function Toggled(name: string, e: RevealEntry): (r: RevealEntry)
    ensures r.revealed == !e.revealed && r.friend == e.friend
    ensures Consistent(name, r)
    ensures r.revealed ==> r.text == name + " \U{2192} " + e.friend
    ensures !r.revealed ==> r.text == name
  {
    if !e.revealed then
      e.(text := name + " \U{2192} " + e.friend, revealed := true)
    else
      e.(text := name, revealed := false)
  }

  /** Two clicks on the same button bring it back to where it was. */
  lemma ToggledTwice(name: string, e: RevealEntry)
    requires Consistent(name, e)
    ensures Toggled(name, Toggled(name, e)) == e
  {
  }

  /** The board right after a local draw: name i drew `sorteio[i]`, and every button is hidden. */
  ghost predicate IsFreshBoard(nomes: seq<string>, sorteio: seq<string>, board: map<string, RevealEntry>) {
    && |sorteio| == |nomes|
    && board.Keys == (set x | x in nomes)
    && forall i {:trigger board[nomes[i]]} | 0 <= i < |nomes| ::
         board[nomes[i]] == RevealEntry(sorteio[i], false, nomes[i])
  }

  /** Every button of a fresh board is hidden and shows its own name. */
  lemma FreshBoardIsHidden(nomes: seq<string>, sorteio: seq<string>, board: map<string, RevealEntry>)
    requires IsFreshBoard(nomes, sorteio, board)
    ensures forall x | x in board :: !board[x].revealed && board[x].text == x && Consistent(x, board[x])
  {
    forall x | x in board
      ensures !board[x].revealed && board[x].text == x
    {
      var i :| 0 <= i < |nomes| && nomes[i] == x;
      assert board[nomes[i]] == RevealEntry(sorteio[i], false, nomes[i]);
    }
  }

  /**
   * The `for i, nome in enumerate(nomes)` loop of the local draw that fills
   * `resultados_botoes`: one hidden entry per name, holding the friend at the
   * same position of `sorteio`.
   */
  method RevealBoard(nomes: seq<string>, sorteio: seq<string>) returns (board: map<string, RevealEntry>)
    requires Distinct(nomes) && |sorteio| == |nomes|
    ensures IsFreshBoard(nomes, sorteio, board)
  {
    board := map[];
    for i := 0 to |nomes|
      invariant board.Keys == (set k | 0 <= k < i :: nomes[k])
      invariant forall k | 0 <= k < i :: board[nomes[k]] == RevealEntry(sorteio[k], false, nomes[k])
    {
      board := board[nomes[i] := RevealEntry(sorteio[i], false, nomes[i])];
    }
    assert (set k | 0 <= k < |nomes| :: nomes[k]) == (set x | x in nomes);
  }
}
