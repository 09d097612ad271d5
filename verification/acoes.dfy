/**
 The five strategic actions of the simulator. The program's globals and
 the two containers it passes by pointer become one immutable state value:
 the queue, the stack and the id counter. Each action returns the next
 state together with an outcome standing for the message it prints.
 */
module Acoes {
  import opened Pecas
  import Filas
  import Pilhas

  datatype Estado = Estado(fila: Filas.FilaCircular, pilha: Pilhas.Pilha, proximo: nat)

  /** What an action reports; the failure outcomes leave the state unchanged. */
  datatype Desfecho =
    | Jogada(jogada: Peca, nova: Peca)
    | Reservada(reservada: Peca, nova: Peca)
    | Usada(usada: Peca)
    | Trocada(daFila: Peca, daPilha: Peca)
    | TrocaMultiplaFeita
    | FilaVazia
    | PilhaCheia
    | PilhaVazia
    | FilaOuPilhaVazia
    | FilaInsuficiente(tem: int)
    | PilhaInsuficiente(tem: int)

  datatype Passo = Passo(estado: Estado, desfecho: Desfecho)

  predicate Valido(s: Estado)
  {
    Filas.Valida(s.fila) && Pilhas.Valida(s.pilha)
  }

  /** The queue's pieces, front first. */
  function NaFila(s: Estado): (q: seq<Peca>)
    requires Valido(s)
    ensures |q| <= Filas.TAM_FILA
  {
    Filas.Conteudo(s.fila)
  }

  /** The stack's pieces, base first. */
  function NaPilha(s: Estado): (q: seq<Peca>)
    requires Valido(s)
    ensures |q| <= Pilhas.TAM_PILHA
  {
    Pilhas.Conteudo(s.pilha)
  }

  /**
   `jogarPeca`: on an empty queue nothing changes; otherwise the front
   piece is played and a fresh piece, carrying the counter as its id, joins
   at the rear, so the queue keeps its size.
   */
  function JogarPeca(s: Estado, rand: nat -> nat): (r: Passo)
    requires Valido(s)
    ensures Valido(r.estado)
    ensures NaFila(s) == [] ==> r == Passo(s, FilaVazia)
    ensures NaFila(s) != [] ==>
      var nova := GerarPeca(s.proximo, rand).peca;
      && nova.id == s.proximo
      && NaFila(r.estado) == NaFila(s)[1..] + [nova]
      && r.estado.pilha == s.pilha
      && r.estado.proximo == s.proximo + 1
      && r.desfecho == Jogada(NaFila(s)[0], nova)
  {
    if Filas.FilaEstaVazia(s.fila) then Passo(s, FilaVazia)
    else
      var jogada := Filas.Desenfileirar(s.fila);
      var g := GerarPeca(s.proximo, rand);
      Passo(Estado(Filas.Enfileirar(jogada.restante, g.peca), s.pilha, g.proximo), Jogada(jogada.peca, g.peca))
  }

  /**
   `reservarPeca`: with an empty queue, or else a full stack, nothing
   changes; otherwise the front piece moves onto the stack and a fresh piece
   joins the queue at the rear.
   */
  function ReservarPeca(s: Estado, rand: nat -> nat): (r: Passo)
    requires Valido(s)
    ensures Valido(r.estado)
    ensures NaFila(s) == [] ==> r == Passo(s, FilaVazia)
    ensures NaFila(s) != [] && |NaPilha(s)| == Pilhas.TAM_PILHA ==> r == Passo(s, PilhaCheia)
    ensures NaFila(s) != [] && |NaPilha(s)| < Pilhas.TAM_PILHA ==>
      var nova := GerarPeca(s.proximo, rand).peca;
      && nova.id == s.proximo
      && NaPilha(r.estado) == NaPilha(s) + [NaFila(s)[0]]
      && NaFila(r.estado) == NaFila(s)[1..] + [nova]
      && r.estado.proximo == s.proximo + 1
      && r.desfecho == Reservada(NaFila(s)[0], nova)
  {
    if Filas.FilaEstaVazia(s.fila) then Passo(s, FilaVazia)
    else if Pilhas.PilhaEstaCheia(s.pilha) then Passo(s, PilhaCheia)
    else
      var reservada := Filas.Desenfileirar(s.fila);
      var pilha := Pilhas.Empilhar(s.pilha, reservada.peca);
      var g := GerarPeca(s.proximo, rand);
      Passo(Estado(Filas.Enfileirar(reservada.restante, g.peca), pilha, g.proximo), Reservada(reservada.peca, g.peca))
  }

  /**
   `usarPecaReservada`: on an empty stack nothing changes; otherwise the top
   piece is used up. Nothing is replenished and the queue is not touched.
   */
  function UsarPecaReservada(s: Estado): (r: Passo)
    requires Valido(s)
    ensures Valido(r.estado)
    ensures NaPilha(s) == [] ==> r == Passo(s, PilhaVazia)
    ensures NaPilha(s) != [] ==>
      && NaPilha(r.estado) == Pilhas.SemTopo(NaPilha(s))
      && r.estado.fila == s.fila
      && r.estado.proximo == s.proximo
      && r.desfecho == Usada(Pilhas.Topo(NaPilha(s)))
  {
    if Pilhas.PilhaEstaVazia(s.pilha) then Passo(s, PilhaVazia)
    else
      var usada := Pilhas.Desempilhar(s.pilha);
      Passo(Estado(s.fila, usada.restante, s.proximo), Usada(usada.peca))
  }

  /**
   `trocarPecaAtual`: with either container empty nothing changes;
   otherwise the front piece replaces the stack's top piece, and the old
   top piece joins the queue at the REAR (it is enqueued, not put back at
   the front). No piece is created or lost.
   */
  function TrocarPecaAtual(s: Estado): (r: Passo)
    requires Valido(s)
    ensures Valido(r.estado)
    ensures NaFila(s) == [] || NaPilha(s) == [] ==> r == Passo(s, FilaOuPilhaVazia)
    ensures NaFila(s) != [] && NaPilha(s) != [] ==>
      && NaFila(r.estado) == NaFila(s)[1..] + [Pilhas.Topo(NaPilha(s))]
      && NaPilha(r.estado) == Pilhas.SemTopo(NaPilha(s)) + [NaFila(s)[0]]
      && r.estado.proximo == s.proximo
      && r.desfecho == Trocada(NaFila(s)[0], Pilhas.Topo(NaPilha(s)))
    ensures multiset(NaFila(r.estado) + NaPilha(r.estado)) == multiset(NaFila(s) + NaPilha(s))
  {
    if Filas.FilaEstaVazia(s.fila) || Pilhas.PilhaEstaVazia(s.pilha) then Passo(s, FilaOuPilhaVazia)
    else
      var daFila := Filas.Desenfileirar(s.fila);
      var daPilha := Pilhas.Desempilhar(s.pilha);
      var fila := Filas.Enfileirar(daFila.restante, daPilha.peca);
      var pilha := Pilhas.Empilhar(daPilha.restante, daFila.peca);
      var r := Passo(Estado(fila, pilha, s.proximo), Trocada(daFila.peca, daPilha.peca));
      TrocaPreservaPecas(NaFila(s), NaPilha(s));
      r
  }

  /** Exchanging the front of `f` with the top of `p` rearranges their pieces. */
  lemma TrocaPreservaPecas(f: seq<Peca>, p: seq<Peca>)
    requires f != [] && p != []
    ensures multiset(f[1..] + [Pilhas.Topo(p)] + (Pilhas.SemTopo(p) + [f[0]])) == multiset(f + p)
  {
    assert f == [f[0]] + f[1..];
    assert p == Pilhas.SemTopo(p) + [Pilhas.Topo(p)];
  }

  /**
   `trocaMultipla`: unless the queue holds at least three pieces and the
   stack is full, nothing changes and the shortfall is reported. Otherwise
   the three front pieces become the stack, the first of them at the base,
   and the old stack pieces are enqueued top first at the REAR of the
   queue, behind the pieces that were fourth and fifth.
   */
  function TrocaMultipla(s: Estado): (r: Passo)
    requires Valido(s)
    ensures Valido(r.estado)
    ensures |NaFila(s)| < Pilhas.TAM_PILHA ==> r == Passo(s, FilaInsuficiente(|NaFila(s)|))
    ensures |NaFila(s)| >= Pilhas.TAM_PILHA && |NaPilha(s)| < Pilhas.TAM_PILHA ==>
      r == Passo(s, PilhaInsuficiente(|NaPilha(s)|))
    ensures |NaFila(s)| >= Pilhas.TAM_PILHA && |NaPilha(s)| == Pilhas.TAM_PILHA ==>
      && NaPilha(r.estado) == NaFila(s)[..3]
      && NaFila(r.estado) == NaFila(s)[3..] + [NaPilha(s)[2], NaPilha(s)[1], NaPilha(s)[0]]
      && r.estado.proximo == s.proximo
      && r.desfecho == TrocaMultiplaFeita
    ensures multiset(NaFila(r.estado) + NaPilha(r.estado)) == multiset(NaFila(s) + NaPilha(s))
  {
    if s.fila.tamanho < Pilhas.TAM_PILHA then Passo(s, FilaInsuficiente(s.fila.tamanho))
    else if s.pilha.topo < Pilhas.TAM_PILHA - 1 then Passo(s, PilhaInsuficiente(s.pilha.topo + 1))
    else
      var tempFila := Filas.DesenfileirarVarias(s.fila, Pilhas.TAM_PILHA);
      var tempPilha := Pilhas.DesempilharVarias(s.pilha, Pilhas.TAM_PILHA);
      var pilha := Pilhas.EmpilharTodos(tempPilha.restante, tempFila.pecas);
      var fila := Filas.EnfileirarTodos(tempFila.restante, tempPilha.pecas);
      TrocaDeBlocos(s.fila, s.pilha);
      TrocaMultiplaPreservaPecas(NaFila(s), NaPilha(s));
      Passo(Estado(fila, pilha, s.proximo), TrocaMultiplaFeita)
  }

  /**
   The four loops of the block swap on containers that pass its guards:
   every removal finds a piece and every insertion finds room, so the three
   front pieces become the stack and the stack's pieces, top first, fill the
   rear of the queue.
   */
  lemma TrocaDeBlocos(f: Filas.FilaCircular, p: Pilhas.Pilha)
    requires Filas.Valida(f) && Pilhas.Valida(p)
    requires |Filas.Conteudo(f)| >= Pilhas.TAM_PILHA && |Pilhas.Conteudo(p)| == Pilhas.TAM_PILHA
    ensures
      var tempFila := Filas.DesenfileirarVarias(f, Pilhas.TAM_PILHA);
      var tempPilha := Pilhas.DesempilharVarias(p, Pilhas.TAM_PILHA);
      && Pilhas.Conteudo(Pilhas.EmpilharTodos(tempPilha.restante, tempFila.pecas)) == Filas.Conteudo(f)[..3]
      && Filas.Conteudo(Filas.EnfileirarTodos(tempFila.restante, tempPilha.pecas))
         == Filas.Conteudo(f)[3..] + [Pilhas.Conteudo(p)[2], Pilhas.Conteudo(p)[1], Pilhas.Conteudo(p)[0]]
  {
    var F := Filas.Conteudo(f);
    var P := Pilhas.Conteudo(p);
    var tempFila := Filas.DesenfileirarVarias(f, Pilhas.TAM_PILHA);
    var tempPilha := Pilhas.DesempilharVarias(p, Pilhas.TAM_PILHA);
    assert tempFila.pecas == F[..3];
    assert |Filas.Conteudo(tempFila.restante)| <= 2;
    assert Pilhas.Conteudo(tempPilha.restante) == [];
    assert tempPilha.pecas == Pilhas.TopoParaBase(P)[..3] == [P[2], P[1], P[0]];
  }

  /** Exchanging three front pieces of `f` with the three pieces of `p` rearranges their pieces. */
  lemma TrocaMultiplaPreservaPecas(f: seq<Peca>, p: seq<Peca>)
    requires |f| >= 3 && |p| == 3
    ensures multiset(f[3..] + [p[2], p[1], p[0]] + f[..3]) == multiset(f + p)
  {
    assert f == f[..3] + f[3..];
    assert p == [p[0], p[1], p[2]];
  }

  /**
   The insertions inside the actions never reach the silent-rejection
   branch: a removal from the queue always leaves room for the
   replenishing or swapped-in piece, a removal from the stack leaves room
   for the swapped-in piece, and on the block swap's guards the queue keeps
   room for three and the stack is emptied before it is refilled.
   */
  lemma InsercoesNuncaRejeitadas(s: Estado)
    requires Valido(s)
    ensures NaFila(s) != [] ==> !Filas.FilaEstaCheia(Filas.Desenfileirar(s.fila).restante)
    ensures NaPilha(s) != [] ==> !Pilhas.PilhaEstaCheia(Pilhas.Desempilhar(s.pilha).restante)
    ensures |NaFila(s)| >= Pilhas.TAM_PILHA && |NaPilha(s)| == Pilhas.TAM_PILHA ==>
      && |Filas.Conteudo(Filas.DesenfileirarVarias(s.fila, Pilhas.TAM_PILHA).restante)| + Pilhas.TAM_PILHA <= Filas.TAM_FILA
      && Pilhas.Conteudo(Pilhas.DesempilharVarias(s.pilha, Pilhas.TAM_PILHA).restante) == []
  {
  }

  /**
   After a successful single swap the old top piece is at the front of the
   queue only when the queue held exactly one piece; otherwise it waits at
   the rear. (Pieces are told apart by their ids.)
   */
  lemma TrocaTopoNaFrenteSoComUma(s: Estado)
    requires Valido(s) && NaFila(s) != [] && NaPilha(s) != []
    requires IdsDistintos(NaFila(s) + NaPilha(s))
    ensures NaFila(TrocarPecaAtual(s).estado)[0] == Pilhas.Topo(NaPilha(s)) <==> |NaFila(s)| == 1
  {
    var F := NaFila(s);
    var P := NaPilha(s);
    if |F| > 1 {
      assert (F + P)[1] == F[1];
      assert (F + P)[|F| + |P| - 1] == Pilhas.Topo(P);
    }
  }

  /**
   After a successful block swap the old top piece is at the front of the
   queue only when the queue held exactly three pieces; otherwise the old
   fourth piece is.
   */
  lemma TrocaMultiplaTopoNaFrenteSoComTres(s: Estado)
    requires Valido(s) && |NaFila(s)| >= Pilhas.TAM_PILHA && |NaPilha(s)| == Pilhas.TAM_PILHA
    requires IdsDistintos(NaFila(s) + NaPilha(s))
    ensures NaFila(TrocaMultipla(s).estado)[0] == NaPilha(s)[2] <==> |NaFila(s)| == 3
  {
    var F := NaFila(s);
    var P := NaPilha(s);
    if |F| > 3 {
      assert (F + P)[3] == F[3];
      assert (F + P)[|F| + 2] == P[2];
    }
  }

  /**
   Five queued pieces and three stacked ones, taken apart as the block swap
   takes them: the two queue pieces behind the first three, then the stack
   top first; and the three front pieces in queue order.
   */
  lemma OrdemDoCenario(F: seq<Peca>, P: seq<Peca>, a: Peca, b: Peca, c: Peca, d: Peca, e: Peca, x: Peca, y: Peca, z: Peca)
    requires F == [a, b, c, d, e] && P == [z, y, x]
    ensures F[3..] + [P[2], P[1], P[0]] == [d, e, x, y, z]
    ensures F[..3] == [a, b, c]
  {
  }

  /**
   This example: queue A B C D E (front first) and stack X Y Z (top
   first, so Z is the base) become queue D E X Y Z and stack C B A (top
   first, so A is the base).
   */
  lemma CenarioTrocaMultipla(s: Estado, a: Peca, b: Peca, c: Peca, d: Peca, e: Peca, x: Peca, y: Peca, z: Peca)
    requires Valido(s) && NaFila(s) == [a, b, c, d, e] && NaPilha(s) == [z, y, x]
    ensures NaFila(TrocaMultipla(s).estado) == [d, e, x, y, z]
    ensures NaPilha(TrocaMultipla(s).estado) == [a, b, c]
  {
    OrdemDoCenario(NaFila(s), NaPilha(s), a, b, c, d, e, x, y, z);
  }
}
