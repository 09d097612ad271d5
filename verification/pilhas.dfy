/**
 The bounded stack `Pilha`: three slots and the index of the top piece,
 which is -1 when the stack is empty. The abstract view of a stack is the
 sequence of its pieces from the base to the top; the state display prints
 it the other way round.
 */
module Pilhas {
  import opened Pecas
  import opened Recipientes

  const TAM_PILHA: int := 3

  datatype Pilha = Pilha(itens: seq<Peca>, topo: int)

  /** The representation invariant: three slots, top index in [-1, 2]. */
  predicate Valida(p: Pilha)
  {
    |p.itens| == TAM_PILHA && -1 <= p.topo < TAM_PILHA
  }

  /** The pieces of the stack, base first and top last. */
  function Conteudo(p: Pilha): (s: seq<Peca>)
    requires Valida(p)
    ensures |s| == p.topo + 1
  {
    p.itens[..p.topo + 1]
  }

  /** The top piece of a non-empty content sequence. */
  function Topo(s: seq<Peca>): (t: Peca)
    requires s != []
    ensures t in s
  {
    s[|s| - 1]
  }

  /** A non-empty content sequence without its top piece. */
  function SemTopo(s: seq<Peca>): (r: seq<Peca>)
    requires s != []
    ensures |r| == |s| - 1 && r <= s
  {
    s[..|s| - 1]
  }

  /** `inicializarPilha`; the slots, left uninitialised by the program, hold the sentinel. */
  function InicializarPilha(): (p: Pilha)
    ensures Valida(p) && Conteudo(p) == []
  {
    Pilha(seq(TAM_PILHA, _ => SENTINELA), -1)
  }

  /** `pilhaEstaVazia` */
  function PilhaEstaVazia(p: Pilha): (b: bool)
    requires Valida(p)
    ensures b <==> Conteudo(p) == []
  {
    p.topo == -1
  }

  /** `pilhaEstaCheia` */
  function PilhaEstaCheia(p: Pilha): (b: bool)
    requires Valida(p)
    ensures b <==> |Conteudo(p)| == TAM_PILHA
  {
    p.topo == TAM_PILHA - 1
  }

  /** `empilhar`: a full stack is left as it is; otherwise the piece goes on top. */
  function Empilhar(p: Pilha, peca: Peca): (r: Pilha)
    requires Valida(p)
    ensures Valida(r)
    ensures |Conteudo(p)| == TAM_PILHA ==> r == p
    ensures |Conteudo(p)| < TAM_PILHA ==> Conteudo(r) == Conteudo(p) + [peca]
  {
    if PilhaEstaCheia(p) then p
    else
      var topo := p.topo + 1;
      var r := Pilha(p.itens[topo := peca], topo);
      assert Conteudo(r) == Conteudo(p) + [peca];
      r
  }

  /**
   `desempilhar`: an empty stack is left as it is and yields the sentinel;
   otherwise the top piece comes out and the pieces below it remain.
   */
  function Desempilhar(p: Pilha): (r: Remocao<Pilha>)
    requires Valida(p)
    ensures Valida(r.restante)
    ensures Conteudo(p) == [] ==> r.restante == p && r.peca == SENTINELA
    ensures Conteudo(p) != [] ==> r.peca == Topo(Conteudo(p)) && Conteudo(r.restante) == SemTopo(Conteudo(p))
  {
    if PilhaEstaVazia(p) then Remocao(p, SENTINELA)
    else Remocao(Pilha(p.itens, p.topo - 1), p.itens[p.topo])
  }

  /** `peekPilha`: the piece a removal would return, with the stack untouched. */
  function PeekPilha(p: Pilha): (peca: Peca)
    requires Valida(p)
    ensures Conteudo(p) == [] ==> peca == SENTINELA
    ensures Conteudo(p) != [] ==> peca == Topo(Conteudo(p))
  {
    if PilhaEstaVazia(p) then SENTINELA else p.itens[p.topo]
  }

  /** A content sequence read from the top down to the base. */
  function TopoParaBase(s: seq<Peca>): (r: seq<Peca>)
    ensures |r| == |s|
  {
    seq(|s|, k requires 0 <= k < |s| => s[|s| - 1 - k])
  }

  /** Read from the top down, a stack starts with its top piece, then the pieces below. */
  lemma TopoParaBaseSemTopo(s: seq<Peca>)
    requires s != []
    ensures TopoParaBase(s) == [Topo(s)] + TopoParaBase(SemTopo(s))
  {
  }

  /**
   One pop followed by `n - 1` more, read on contents (base first): the top
   piece (or the sentinel) followed by what the later pops took is what `n`
   pops take from `C`, and the pieces left are the bottom ones.
   */
  lemma DesempilhamentosEmSequencia(C: seq<Peca>, n: nat, x: Peca, resto: seq<Peca>, pecas: seq<Peca>, fim: seq<Peca>)
    requires n > 0
    requires C == [] ==> x == SENTINELA && resto == []
    requires C != [] ==> x == Topo(C) && resto == SemTopo(C)
    requires n - 1 <= |resto| ==> pecas == TopoParaBase(resto)[..n - 1] && fim == resto[..|resto| - (n - 1)]
    requires n - 1 > |resto| ==> pecas == TopoParaBase(resto) + Sentinelas(n - 1 - |resto|) && fim == []
    ensures n <= |C| ==> [x] + pecas == TopoParaBase(C)[..n] && fim == C[..|C| - n]
    ensures n > |C| ==> [x] + pecas == TopoParaBase(C) + Sentinelas(n - |C|) && fim == []
  {
    if C == [] {
      SentinelaAMais(n - 1);
    } else {
      TopoParaBaseSemTopo(C);
      if n <= |C| {
        assert TopoParaBase(C)[..n] == [x] + TopoParaBase(resto)[..n - 1];
      }
    }
  }

  /**
   `n` removals in a row, as the second loop of the block swap performs
   them: the pieces come out top first, and once the stack is empty every
   further removal yields the sentinel.
   */
  function DesempilharVarias(p: Pilha, n: nat): (r: Remocoes<Pilha>)
    requires Valida(p)
    ensures Valida(r.restante)
    ensures n <= |Conteudo(p)| ==>
      && r.pecas == TopoParaBase(Conteudo(p))[..n]
      && Conteudo(r.restante) == Conteudo(p)[..|Conteudo(p)| - n]
    ensures n > |Conteudo(p)| ==>
      && r.pecas == TopoParaBase(Conteudo(p)) + Sentinelas(n - |Conteudo(p)|)
      && Conteudo(r.restante) == []
    decreases n
  {
    if n == 0 then Remocoes(p, [])
    else
      var a := Desempilhar(p);
      var b := DesempilharVarias(a.restante, n - 1);
      DesempilhamentosEmSequencia(Conteudo(p), n, a.peca, Conteudo(a.restante), b.pecas, Conteudo(b.restante));
      Remocoes(b.restante, [a.peca] + b.pecas)
  }

  /**
   Pushing the pieces of `s` one after another, as the third loop of the
   block swap does: `s[0]` ends nearest the base, and the pieces that find
   the stack full are dropped.
   */
  function EmpilharTodos(p: Pilha, s: seq<Peca>): (r: Pilha)
    requires Valida(p)
    ensures Valida(r)
    ensures |Conteudo(p)| + |s| <= TAM_PILHA ==> Conteudo(r) == Conteudo(p) + s
    ensures |Conteudo(p)| + |s| > TAM_PILHA ==> Conteudo(r) == (Conteudo(p) + s)[..TAM_PILHA]
    decreases |s|
  {
    if s == [] then p
    else
      var r := EmpilharTodos(Empilhar(p, s[0]), s[1..]);
      assert Conteudo(p) + s == Conteudo(p) + [s[0]] + s[1..];
      r
  }

  /**
   The traversal of the state display: from the top index down to slot 0,
   so the pieces come out top first, the reverse of the abstract view.
   */
  method ListarPilha(p: Pilha) returns (r: seq<Peca>)
    requires Valida(p)
    ensures r == TopoParaBase(Conteudo(p))
  {
    r := [];
    var i := p.topo;
    while i >= 0
      invariant -1 <= i <= p.topo
      invariant |r| == p.topo - i
      invariant forall k :: 0 <= k < |r| ==> r[k] == p.itens[p.topo - k]
    {
      r := r + [p.itens[i]];
      i := i - 1;
    }
  }

  /** Peeking agrees with removing: both see the same piece. */
  lemma PeekIgualDesempilhar(p: Pilha)
    requires Valida(p)
    ensures PeekPilha(p) == Desempilhar(p).peca
  {
  }

  /** Pushing then popping gives back the pushed piece and the stack as it was. */
  lemma DesempilharDesfazEmpilhar(p: Pilha, peca: Peca)
    requires Valida(p) && |Conteudo(p)| < TAM_PILHA
    ensures Desempilhar(Empilhar(p, peca)).peca == peca
    ensures Conteudo(Desempilhar(Empilhar(p, peca)).restante) == Conteudo(p)
  {
  }

  /** The LIFO law: of two pieces pushed in turn, the second leaves first. */
  lemma LeiLifo(p: Pilha, a: Peca, b: Peca)
    requires Valida(p) && Conteudo(p) == []
    ensures Desempilhar(Empilhar(Empilhar(p, a), b)).peca == b
    ensures Desempilhar(Desempilhar(Empilhar(Empilhar(p, a), b)).restante).peca == a
  {
  }
}
