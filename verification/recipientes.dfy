/**
 What the two containers hand back when pieces are taken out of them:
 the container that remains and the piece or pieces removed. A removal
 from an empty container yields the sentinel.
 */
module Recipientes {
  import opened Pecas

  /** The result of a removal: what is left of the container and the piece taken. */
  datatype Remocao<T> = Remocao(restante: T, peca: Peca)

  /** The result of several removals: what is left and the pieces taken, in removal order. */
  datatype Remocoes<T> = Remocoes(restante: T, pecas: seq<Peca>)

  /** What `n` removals from an already empty container return. */
  function Sentinelas(n: nat): (s: seq<Peca>)
    ensures |s| == n
  {
    seq(n, _ => SENTINELA)
  }

  /** One more removal from an empty container yields one more sentinel, first. */
  lemma SentinelaAMais(n: nat)
    ensures Sentinelas(n + 1) == [SENTINELA] + Sentinelas(n)
  {
  }
}
