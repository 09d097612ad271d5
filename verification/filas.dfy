/**
 The circular queue `FilaCircular`: five slots, the index of the front
 piece, the index of the last inserted piece and the occupancy. Both
 indices are -1 exactly when the queue is empty. The abstract view of a
 queue is the sequence of its pieces read from the front to the rear, the
 order in which the state display walks the ring.
 */
module Filas {
  import opened Pecas
  import opened Recipientes

  const TAM_FILA: int := 5

  datatype FilaCircular = FilaCircular(itens: seq<Peca>, frente: int, traseiro: int, tamanho: int)

  /** The representation invariant of the ring buffer. */
  predicate Valida(f: FilaCircular)
  {
    && |f.itens| == TAM_FILA
    && 0 <= f.tamanho <= TAM_FILA
    && (if f.tamanho == 0 then f.frente == -1 && f.traseiro == -1
        else
          && 0 <= f.frente < TAM_FILA
          && 0 <= f.traseiro < TAM_FILA
          && f.traseiro == (f.frente + f.tamanho - 1) % TAM_FILA)
  }

  /** The slot holding the piece `k` places behind the slot `base`, around the ring. */
  function Posicao(base: int, k: int): (i: int)
    ensures 0 <= i < TAM_FILA
  {
    (base + k) % TAM_FILA
  }

  /** Within one turn of the ring, the slot index wraps at most once. */
  lemma PosicaoSemVoltas(base: int, k: int)
    requires 0 <= base < TAM_FILA && 0 <= k <= TAM_FILA
    ensures Posicao(base, k) == if base + k < TAM_FILA then base + k else base + k - TAM_FILA
  {
  }

  /** One step further around the ring is the next slot, wrapping after the last. */
  lemma PosicaoSeguinte(base: int, k: int)
    ensures Posicao(base, k + 1) == (Posicao(base, k) + 1) % TAM_FILA
    ensures Posicao((base + 1) % TAM_FILA, k) == Posicao(base, k + 1)
  {
  }

  /** The pieces of the queue, front first. */
  function Conteudo(f: FilaCircular): (s: seq<Peca>)
    requires Valida(f)
    ensures |s| == f.tamanho
  {
    seq(f.tamanho, k requires 0 <= k < f.tamanho => f.itens[Posicao(f.frente, k)])
  }

  /** `inicializarFila`; the slots, left uninitialised by the program, hold the sentinel. */
  function InicializarFila(): (f: FilaCircular)
    ensures Valida(f) && Conteudo(f) == []
  {
    FilaCircular(seq(TAM_FILA, _ => SENTINELA), -1, -1, 0)
  }

  /** `filaEstaVazia` */
  function FilaEstaVazia(f: FilaCircular): (b: bool)
    requires Valida(f)
    ensures b <==> Conteudo(f) == []
  {
    f.tamanho == 0
  }

  /** `filaEstaCheia` */
  function FilaEstaCheia(f: FilaCircular): (b: bool)
    requires Valida(f)
    ensures b <==> |Conteudo(f)| == TAM_FILA
  {
    f.tamanho == TAM_FILA
  }

  /** Writing the slot just past the rear of a non-full queue appends to its contents. */
  lemma EscritaNoFim(f: FilaCircular, r: FilaCircular, p: Peca)
    requires Valida(f) && f.tamanho < TAM_FILA
    requires r.tamanho == f.tamanho + 1 && r.traseiro == (f.traseiro + 1) % TAM_FILA
    requires r.frente == (if f.tamanho == 0 then 0 else f.frente)
    requires r.itens == f.itens[r.traseiro := p]
    ensures Valida(r) && Conteudo(r) == Conteudo(f) + [p]
  {
    EscritaNoFimValida(f, r);
    forall k | 0 <= k < r.tamanho
      ensures Conteudo(r)[k] == (Conteudo(f) + [p])[k]
    {
      if k < f.tamanho {
        PosicaoSemVoltas(f.frente, k);
        PosicaoSemVoltas(f.frente, f.tamanho);
        assert Posicao(r.frente, k) == Posicao(f.frente, k) != r.traseiro;
      }
    }
  }

  /** The slot just past the rear is the one `tamanho` places behind the front. */
  lemma EscritaNoFimValida(f: FilaCircular, r: FilaCircular)
    requires Valida(f) && f.tamanho < TAM_FILA
    requires r.tamanho == f.tamanho + 1 && r.traseiro == (f.traseiro + 1) % TAM_FILA
    requires r.frente == (if f.tamanho == 0 then 0 else f.frente)
    requires |r.itens| == TAM_FILA
    ensures Valida(r) && r.traseiro == Posicao(r.frente, f.tamanho)
  {
    if f.tamanho > 0 {
      PosicaoSemVoltas(f.frente, f.tamanho - 1);
      PosicaoSemVoltas(f.frente, f.tamanho);
    }
  }

  /** Moving the front index one slot on drops exactly the front piece. */
  lemma FrenteAvancada(f: FilaCircular, r: FilaCircular)
    requires Valida(f) && f.tamanho > 1
    requires r == FilaCircular(f.itens, (f.frente + 1) % TAM_FILA, f.traseiro, f.tamanho - 1)
    ensures Valida(r) && Conteudo(r) == Conteudo(f)[1..]
  {
    FrenteAvancadaValida(f, r);
    forall k | 0 <= k < r.tamanho
      ensures Conteudo(r)[k] == Conteudo(f)[1..][k]
    {
      PosicaoSeguinte(f.frente, k);
    }
  }

  /** Moving the front index one slot on keeps the rear index consistent with the occupancy. */
  lemma FrenteAvancadaValida(f: FilaCircular, r: FilaCircular)
    requires Valida(f) && f.tamanho > 1
    requires r == FilaCircular(f.itens, (f.frente + 1) % TAM_FILA, f.traseiro, f.tamanho - 1)
    ensures Valida(r)
  {
    PosicaoSemVoltas(f.frente, 1);
    PosicaoSemVoltas(f.frente, f.tamanho - 1);
    PosicaoSemVoltas(r.frente, r.tamanho - 1);
  }

  /**
   `enfileirar`: a full queue is left as it is; otherwise the piece joins at
   the rear and the pieces already held keep their order.
   */
  function Enfileirar(f: FilaCircular, p: Peca): (r: FilaCircular)
    requires Valida(f)
    ensures Valida(r)
    ensures |Conteudo(f)| == TAM_FILA ==> r == f
    ensures |Conteudo(f)| < TAM_FILA ==> Conteudo(r) == Conteudo(f) + [p]
  {
    if FilaEstaCheia(f) then f
    else
      var frente := if FilaEstaVazia(f) then 0 else f.frente;
      var traseiro := (f.traseiro + 1) % TAM_FILA;
      var r := FilaCircular(f.itens[traseiro := p], frente, traseiro, f.tamanho + 1);
      EscritaNoFim(f, r, p);
      r
  }

  /**
   `desenfileirar`: an empty queue is left as it is and yields the sentinel;
   otherwise the front piece comes out and exactly the rest remains, in order.
   */
  function Desenfileirar(f: FilaCircular): (r: Remocao<FilaCircular>)
    requires Valida(f)
    ensures Valida(r.restante)
    ensures Conteudo(f) == [] ==> r.restante == f && r.peca == SENTINELA
    ensures Conteudo(f) != [] ==> r.peca == Conteudo(f)[0] && Conteudo(r.restante) == Conteudo(f)[1..]
  {
    if FilaEstaVazia(f) then Remocao(f, SENTINELA)
    else
      var peca := f.itens[f.frente];
      var tamanho := f.tamanho - 1;
      if tamanho == 0 then Remocao(FilaCircular(f.itens, -1, -1, 0), peca)
      else
        var frente := (f.frente + 1) % TAM_FILA;
        var r := FilaCircular(f.itens, frente, f.traseiro, tamanho);
        FrenteAvancada(f, r);
        Remocao(r, peca)
  }

  /** `peekFila`: the piece a removal would return, with the queue untouched. */
  function PeekFila(f: FilaCircular): (p: Peca)
    requires Valida(f)
    ensures Conteudo(f) == [] ==> p == SENTINELA
    ensures Conteudo(f) != [] ==> p == Conteudo(f)[0]
  {
    if FilaEstaVazia(f) then SENTINELA else f.itens[f.frente]
  }

  /**
   One removal followed by `n - 1` more, read on contents: the first piece
   (or the sentinel) followed by what the later removals took is what `n`
   removals take from `C`.
   */
  lemma RemocoesEmSequencia(C: seq<Peca>, n: nat, x: Peca, resto: seq<Peca>, pecas: seq<Peca>, fim: seq<Peca>)
    requires n > 0
    requires C == [] ==> x == SENTINELA && resto == []
    requires C != [] ==> x == C[0] && resto == C[1..]
    requires n - 1 <= |resto| ==> pecas == resto[..n - 1] && fim == resto[n - 1..]
    requires n - 1 > |resto| ==> pecas == resto + Sentinelas(n - 1 - |resto|) && fim == []
    ensures n <= |C| ==> [x] + pecas == C[..n] && fim == C[n..]
    ensures n > |C| ==> [x] + pecas == C + Sentinelas(n - |C|) && fim == []
  {
    if C == [] {
      SentinelaAMais(n - 1);
    } else if n <= |C| {
      PrefixoAposPrimeira(C, n);
    } else {
      assert C == [C[0]] + C[1..];
    }
  }

  /** Taking `n` pieces is taking the first, then `n - 1` of the rest. */
  lemma PrefixoAposPrimeira(C: seq<Peca>, n: nat)
    requires 0 < n <= |C|
    ensures C[..n] == [C[0]] + C[1..][..n - 1]
    ensures C[n..] == C[1..][n - 1..]
  {
  }

  /**
   `n` removals in a row, as the first loop of the block swap performs
   them: the front pieces come out in queue order, and once the queue is
   empty every further removal yields the sentinel.
   */
  function DesenfileirarVarias(f: FilaCircular, n: nat): (r: Remocoes<FilaCircular>)
    requires Valida(f)
    ensures Valida(r.restante)
    ensures n <= |Conteudo(f)| ==> r.pecas == Conteudo(f)[..n] && Conteudo(r.restante) == Conteudo(f)[n..]
    ensures n > |Conteudo(f)| ==> r.pecas == Conteudo(f) + Sentinelas(n - |Conteudo(f)|) && Conteudo(r.restante) == []
    decreases n
  {
    if n == 0 then Remocoes(f, [])
    else
      var a := Desenfileirar(f);
      var b := DesenfileirarVarias(a.restante, n - 1);
      RemocoesEmSequencia(Conteudo(f), n, a.peca, Conteudo(a.restante), b.pecas, Conteudo(b.restante));
      Remocoes(b.restante, [a.peca] + b.pecas)
  }

  /**
   Enqueueing the pieces of `s` one after another, as the last loop of the
   block swap does: they join at the rear in order until the queue is full,
   and the ones that find it full are dropped.
   */
  function EnfileirarTodos(f: FilaCircular, s: seq<Peca>): (r: FilaCircular)
    requires Valida(f)
    ensures Valida(r)
    ensures |Conteudo(f)| + |s| <= TAM_FILA ==> Conteudo(r) == Conteudo(f) + s
    ensures |Conteudo(f)| + |s| > TAM_FILA ==> Conteudo(r) == (Conteudo(f) + s)[..TAM_FILA]
    decreases |s|
  {
    if s == [] then f
    else
      var r := EnfileirarTodos(Enfileirar(f, s[0]), s[1..]);
      assert Conteudo(f) + s == Conteudo(f) + [s[0]] + s[1..];
      r
  }

  /**
   The traversal of the state display: start at the front index and step
   around the ring, wrapping modulo the capacity, once per held piece.
   */
  method ListarFila(f: FilaCircular) returns (r: seq<Peca>)
    requires Valida(f)
    ensures r == Conteudo(f)
  {
    r := [];
    if FilaEstaVazia(f) {
      return;
    }
    var i := f.frente;
    var count := 0;
    while count < f.tamanho
      invariant 0 <= count <= f.tamanho
      invariant i == Posicao(f.frente, count)
      invariant r == Conteudo(f)[..count]
    {
      assert Conteudo(f)[..count + 1] == Conteudo(f)[..count] + [f.itens[i]];
      PosicaoSeguinte(f.frente, count);
      r := r + [f.itens[i]];
      i := (i + 1) % TAM_FILA;
      count := count + 1;
    }
  }

  /** Peeking agrees with removing: both see the same piece. */
  lemma PeekIgualDesenfileirar(f: FilaCircular)
    requires Valida(f)
    ensures PeekFila(f) == Desenfileirar(f).peca
  {
  }

  /** The FIFO law: of two pieces enqueued in turn, the first leaves first. */
  lemma LeiFifo(f: FilaCircular, a: Peca, b: Peca)
    requires Valida(f) && Conteudo(f) == []
    ensures Desenfileirar(Enfileirar(Enfileirar(f, a), b)).peca == a
    ensures Desenfileirar(Desenfileirar(Enfileirar(Enfileirar(f, a), b)).restante).peca == b
  {
  }

  /** The occupancy never leaves [0, capacity], whatever is enqueued or removed. */
  lemma TamanhoLimitado(f: FilaCircular, p: Peca)
    requires Valida(f)
    ensures 0 <= |Conteudo(Enfileirar(f, p))| <= TAM_FILA
    ensures |Conteudo(Enfileirar(f, p))| == if f.tamanho < TAM_FILA then f.tamanho + 1 else TAM_FILA
    ensures |Conteudo(Desenfileirar(f).restante)| == if f.tamanho > 0 then f.tamanho - 1 else 0
  {
  }
}
