/**
 This module models the pieces of the simulator and the piece factory
 (`gerarPeca`): a piece is a label from the tetromino alphabet plus a
 numeric id taken from a process-wide counter. The counter is explicit
 state here, and the random draw of the label is a parameter `rand` that
 maps the counter value of a call to the number `rand()` returned during
 that call (the factory draws exactly once per counter increment).
 */
module Pecas {

  /** The seven tetromino labels, in the order the factory indexes them. */
  const TIPOS: seq<char> := ['I', 'O', 'T', 'L', 'J', 'S', 'Z']

  datatype Peca = Peca(nome: char, id: int)

  /** The "null piece" returned by a removal or peek on an empty container. */
  const SENTINELA: Peca := Peca('\0', -1)

  /** A created piece together with the counter value after its creation. */
  datatype Geracao = Geracao(peca: Peca, proximo: nat)

  /** `gerarPeca`: the id is the counter before the call, the counter moves on by one. */
  function GerarPeca(proximo: nat, rand: nat -> nat): (g: Geracao)
    ensures g.peca.id == proximo && g.proximo == proximo + 1
    ensures g.peca.nome in TIPOS
    ensures g.peca != SENTINELA
  {
    Geracao(Peca(TIPOS[rand(proximo) % |TIPOS|], proximo), proximo + 1)
  }

  /** Several created pieces, in creation order, with the counter value after the last. */
  datatype Geracoes = Geracoes(pecas: seq<Peca>, proximo: nat)

  /**
   `n` successive calls of the factory, as the seeding loop of the program
   makes them: `n` pieces, and the counter moved on by exactly `n`.
   */
  function GerarVarias(proximo: nat, n: nat, rand: nat -> nat): (r: Geracoes)
    ensures |r.pecas| == n && r.proximo == proximo + n
    decreases n
  {
    if n == 0 then Geracoes([], proximo)
    else
      var g := GerarPeca(proximo, rand);
      var resto := GerarVarias(g.proximo, n - 1, rand);
      Geracoes([g.peca] + resto.pecas, resto.proximo)
  }

  /** No two positions of `s` hold pieces with the same id. */
  predicate IdsDistintos(s: seq<Peca>)
  {
    forall i, j :: 0 <= i < j < |s| ==> s[i].id != s[j].id
  }

  /** Every piece of `s` has a real id below the counter value `proximo`. */
  predicate IdsAbaixo(s: seq<Peca>, proximo: nat)
  {
    forall i :: 0 <= i < |s| ==> 0 <= s[i].id < proximo
  }

  /**
   Successive factory calls hand out consecutive ids starting at the
   counter: the ids are strictly increasing, unique, non-negative (so never
   the sentinel's -1), every label is in the alphabet, and the counter has
   moved on by exactly the number of calls.
   */
  lemma {:induction false} GerarVariasIds(proximo: nat, n: nat, rand: nat -> nat)
    ensures forall i :: 0 <= i < n ==> GerarVarias(proximo, n, rand).pecas[i].id == proximo + i
    ensures forall i :: 0 <= i < n ==> GerarVarias(proximo, n, rand).pecas[i].nome in TIPOS
    ensures forall i, j :: 0 <= i < j < n ==>
      GerarVarias(proximo, n, rand).pecas[i].id < GerarVarias(proximo, n, rand).pecas[j].id
    ensures IdsDistintos(GerarVarias(proximo, n, rand).pecas)
    ensures IdsAbaixo(GerarVarias(proximo, n, rand).pecas, GerarVarias(proximo, n, rand).proximo)
    decreases n
  {
    if n > 0 {
      GerarVariasIds(proximo + 1, n - 1, rand);
      var ps := GerarVarias(proximo, n, rand).pecas;
      assert ps == [GerarPeca(proximo, rand).peca] + GerarVarias(proximo + 1, n - 1, rand).pecas;
    }
  }

  /** `a` without the piece at position `k`. */
  function SemPosicao(a: seq<Peca>, k: int): (r: seq<Peca>)
    requires 0 <= k < |a|
    ensures |r| == |a| - 1
    ensures multiset(r) == multiset(a) - multiset{a[k]}
  {
    assert a == a[..k] + [a[k]] + a[k + 1..];
    a[..k] + a[k + 1..]
  }

  /** Removing position `k` keeps ids distinct, and no remaining id equals the removed one. */
  lemma RemoverPosicao(a: seq<Peca>, k: int)
    requires 0 <= k < |a| && IdsDistintos(a)
    ensures IdsDistintos(SemPosicao(a, k))
    ensures forall m :: 0 <= m < |a| - 1 ==> SemPosicao(a, k)[m].id != a[k].id
  {
    var r := SemPosicao(a, k);
    assert forall m :: 0 <= m < |r| ==> r[m] == a[if m < k then m else m + 1];
  }

  /** A piece held by a sequence sits at one of its positions. */
  lemma PosicaoDe(a: seq<Peca>, x: Peca) returns (k: int)
    requires x in multiset(a)
    ensures 0 <= k < |a| && a[k] == x
  {
    assert x in a;
    k :| 0 <= k < |a| && a[k] == x;
  }

  /**
   Id uniqueness survives taking any sub-multiset of the pieces, whatever
   the order: every rearrangement of a subset of pieces with distinct ids
   still has distinct ids.
   */
  lemma {:induction false} IdsDistintosSubmultiset(a: seq<Peca>, b: seq<Peca>)
    requires multiset(b) <= multiset(a)
    requires IdsDistintos(a)
    ensures IdsDistintos(b)
    decreases |b|
  {
    if |b| > 0 {
      var x := b[0];
      assert b == [x] + b[1..];
      var k := PosicaoDe(a, x);
      var a' := SemPosicao(a, k);
      assert multiset(b[1..]) <= multiset(a');
      RemoverPosicao(a, k);
      IdsDistintosSubmultiset(a', b[1..]);
      forall m | 1 <= m < |b|
        ensures b[m].id != x.id
      {
        assert b[m] == b[1..][m - 1];
        var m' := PosicaoDe(a', b[m]);
      }
    }
  }

  /**
   A fresh piece whose id is the counter value can join pieces whose ids are
   distinct and below the counter without breaking uniqueness.
   */
  lemma IdsDistintosComNova(s: seq<Peca>, nova: Peca, proximo: nat)
    requires IdsDistintos(s) && IdsAbaixo(s, proximo)
    requires nova.id == proximo
    ensures IdsDistintos(s + [nova]) && IdsAbaixo(s + [nova], proximo + 1)
  {
  }
}
