/**
 The simulator as a whole: the start-up seeding of the queue with five
 fresh pieces, the menu's five actions as one step relation, and the
 invariant every reachable state keeps: the queue is full, and the pieces
 held by the two containers have distinct real ids, all below the counter.
 */
module Sistema {
  import opened Pecas
  import Filas
  import Pilhas
  import opened Acoes

  /** The menu choices 1 to 5. */
  datatype Acao = Jogar | Reservar | Usar | Trocar | TrocarMultipla

  /**
   One menu choice. Only playing and reserving call the factory, so the
   counter moves on by at most one; the swaps only rearrange the pieces.
   */
  function Aplicar(s: Estado, a: Acao, rand: nat -> nat): (r: Passo)
    requires Valido(s)
    ensures Valido(r.estado)
    ensures r.estado.proximo == s.proximo || r.estado.proximo == s.proximo + 1
    ensures a != Jogar && a != Reservar ==> r.estado.proximo == s.proximo
    ensures a == Trocar || a == TrocarMultipla ==>
      multiset(NaFila(r.estado) + NaPilha(r.estado)) == multiset(NaFila(s) + NaPilha(s))
  {
    match a
    case Jogar => JogarPeca(s, rand)
    case Reservar => ReservarPeca(s, rand)
    case Usar => UsarPecaReservada(s)
    case Trocar => TrocarPecaAtual(s)
    case TrocarMultipla => TrocaMultipla(s)
  }

  /** The state after the menu choices `acoes`, taken in order. */
  function Executar(s: Estado, acoes: seq<Acao>, rand: nat -> nat): (r: Estado)
    requires Valido(s)
    ensures Valido(r)
    ensures s.proximo <= r.proximo <= s.proximo + |acoes|
    decreases |acoes|
  {
    if acoes == [] then s
    else Executar(Aplicar(s, acoes[0], rand).estado, acoes[1..], rand)
  }

  /**
   The state before the first menu choice: both containers initialised,
   then the queue filled by five factory calls, each piece enqueued as it
   is made. The draws do not depend on the queue, so making the five pieces
   first and then enqueueing them in order is the same computation.
   */
  function EstadoInicial(rand: nat -> nat): (s: Estado)
    ensures Valido(s)
    ensures s.proximo == Filas.TAM_FILA
  {
    var g := GerarVarias(0, Filas.TAM_FILA, rand);
    Estado(Filas.EnfileirarTodos(Filas.InicializarFila(), g.pecas), Pilhas.InicializarPilha(), g.proximo)
  }

  /** The pieces held by the queue and the stack together. */
  function EmJogo(s: Estado): (e: seq<Peca>)
    requires Valido(s)
    ensures |e| <= Filas.TAM_FILA + Pilhas.TAM_PILHA
  {
    NaFila(s) + NaPilha(s)
  }

  predicate Invariante(s: Estado)
  {
    && Valido(s)
    && |NaFila(s)| == Filas.TAM_FILA
    && IdsDistintos(EmJogo(s))
    && IdsAbaixo(EmJogo(s), s.proximo)
  }

  /**
   Seeding fills the queue with the pieces of ids 0 to 4, in that order,
   leaves the stack empty and the counter at 5; the invariant holds.
   */
  lemma EstadoInicialInvariante(rand: nat -> nat)
    ensures Invariante(EstadoInicial(rand))
    ensures NaPilha(EstadoInicial(rand)) == []
    ensures forall i :: 0 <= i < Filas.TAM_FILA ==> NaFila(EstadoInicial(rand))[i].id == i
  {
    GerarVariasIds(0, Filas.TAM_FILA, rand);
    var s := EstadoInicial(rand);
    assert EmJogo(s) == GerarVarias(0, Filas.TAM_FILA, rand).pecas;
  }

  /** Distinct ids below the counter carry over to any sub-multiset, in any order. */
  lemma Rearranjo(a: seq<Peca>, b: seq<Peca>, proximo: nat)
    requires multiset(b) <= multiset(a)
    requires IdsDistintos(a) && IdsAbaixo(a, proximo)
    ensures IdsDistintos(b) && IdsAbaixo(b, proximo)
  {
    IdsDistintosSubmultiset(a, b);
    forall i | 0 <= i < |b|
      ensures 0 <= b[i].id < proximo
    {
      var k := PosicaoDe(a, b[i]);
    }
  }

  /** Playing keeps the invariant: the fresh piece's id is new. */
  lemma JogarPreserva(s: Estado, rand: nat -> nat)
    requires Invariante(s)
    ensures Invariante(JogarPeca(s, rand).estado)
  {
    var F := NaFila(s);
    var P := NaPilha(s);
    var r := JogarPeca(s, rand).estado;
    var nova := GerarPeca(s.proximo, rand).peca;
    assert F == [F[0]] + F[1..];
    assert EmJogo(r) == F[1..] + [nova] + P;
    IdsDistintosComNova(F + P, nova, s.proximo);
    assert multiset(EmJogo(r)) <= multiset(F + P + [nova]);
    Rearranjo(F + P + [nova], EmJogo(r), r.proximo);
  }

  /** Reserving keeps the invariant: the front piece moves, the fresh piece's id is new. */
  lemma ReservarPreserva(s: Estado, rand: nat -> nat)
    requires Invariante(s)
    ensures Invariante(ReservarPeca(s, rand).estado)
  {
    var F := NaFila(s);
    var P := NaPilha(s);
    if |P| < Pilhas.TAM_PILHA {
      var r := ReservarPeca(s, rand).estado;
      var nova := GerarPeca(s.proximo, rand).peca;
      assert F == [F[0]] + F[1..];
      assert EmJogo(r) == F[1..] + [nova] + (P + [F[0]]);
      IdsDistintosComNova(F + P, nova, s.proximo);
      assert multiset(EmJogo(r)) == multiset(F + P + [nova]);
      Rearranjo(F + P + [nova], EmJogo(r), r.proximo);
    }
  }

  /** Using a reserved piece keeps the invariant: a piece leaves, the queue is untouched. */
  lemma UsarPreserva(s: Estado)
    requires Invariante(s)
    ensures Invariante(UsarPecaReservada(s).estado)
  {
    var F := NaFila(s);
    var P := NaPilha(s);
    if P != [] {
      var r := UsarPecaReservada(s).estado;
      assert F + P == EmJogo(r) + [Pilhas.Topo(P)];
      Rearranjo(F + P, EmJogo(r), r.proximo);
    }
  }

  /** Both swaps keep the invariant: they only rearrange the pieces held. */
  lemma TrocasPreservam(s: Estado)
    requires Invariante(s)
    ensures Invariante(TrocarPecaAtual(s).estado)
    ensures Invariante(TrocaMultipla(s).estado)
  {
    Rearranjo(EmJogo(s), EmJogo(TrocarPecaAtual(s).estado), s.proximo);
    Rearranjo(EmJogo(s), EmJogo(TrocaMultipla(s).estado), s.proximo);
  }

  /**
   Every action keeps the invariant: in particular the queue stays at five
   pieces, and the replenishing pieces never repeat an id already held.
   */
  lemma AplicarPreserva(s: Estado, a: Acao, rand: nat -> nat)
    requires Invariante(s)
    ensures Invariante(Aplicar(s, a, rand).estado)
  {
    match a
    case Jogar => JogarPreserva(s, rand);
    case Reservar => ReservarPreserva(s, rand);
    case Usar => UsarPreserva(s);
    case Trocar => TrocasPreservam(s);
    case TrocarMultipla => TrocasPreservam(s);
  }

  /** Any run of menu choices from an invariant state keeps the invariant. */
  lemma {:induction false} ExecutarPreserva(s: Estado, acoes: seq<Acao>, rand: nat -> nat)
    requires Invariante(s)
    ensures Invariante(Executar(s, acoes, rand))
    decreases |acoes|
  {
    if acoes != [] {
      AplicarPreserva(s, acoes[0], rand);
      ExecutarPreserva(Aplicar(s, acoes[0], rand).estado, acoes[1..], rand);
    }
  }

  /**
   In any reachable state the single swap never leaves the old top at the
   front of the queue: that needs a queue of one piece, and the queue
   always holds five.
   */
  lemma TrocaNuncaPoeTopoNaFrente(s: Estado)
    requires Invariante(s) && NaPilha(s) != []
    ensures NaFila(TrocarPecaAtual(s).estado)[0] != Pilhas.Topo(NaPilha(s))
  {
    assert EmJogo(s) == NaFila(s) + NaPilha(s);
    TrocaTopoNaFrenteSoComUma(s);
  }

  /**
   In any reachable state the block swap never leaves the old top at the
   front of the queue: with a full stack that needs a queue of three
   pieces, and otherwise the swap is refused and the front piece stays.
   */
  lemma TrocaMultiplaNuncaPoeTopoNaFrente(s: Estado)
    requires Invariante(s) && NaPilha(s) != []
    ensures NaFila(TrocaMultipla(s).estado)[0] != Pilhas.Topo(NaPilha(s))
  {
    var F := NaFila(s);
    var P := NaPilha(s);
    assert EmJogo(s) == F + P;
    if |P| == Pilhas.TAM_PILHA {
      TrocaMultiplaTopoNaFrenteSoComTres(s);
    } else {
      assert EmJogo(s)[0] == F[0];
      assert EmJogo(s)[|F| + |P| - 1] == Pilhas.Topo(P);
    }
  }

  /**
   Every state the program reaches after seeding holds five pieces in its
   queue and never two pieces with the same id.
   */
  lemma Alcancaveis(acoes: seq<Acao>, rand: nat -> nat)
    ensures Invariante(Executar(EstadoInicial(rand), acoes, rand))
    ensures |NaFila(Executar(EstadoInicial(rand), acoes, rand))| == Filas.TAM_FILA
  {
    EstadoInicialInvariante(rand);
    ExecutarPreserva(EstadoInicial(rand), acoes, rand);
  }
}
