# Tetris piece manager — a Dafny model

This project models the core of a small command-line piece manager for a
Tetris-like game (`tetris.c`). The program keeps two bounded containers of
pieces:

- a circular queue `FilaCircular` of five upcoming pieces;
- a reserve stack `Pilha` of at most three pieces.

A piece (`Peca`) is a tetromino label plus an id. The id comes from a
process-wide counter `proximo_id`. Five menu actions move pieces between
the containers:

- `jogarPeca` plays the front piece and replenishes the queue;
- `reservarPeca` moves the front piece onto the stack and replenishes the queue;
- `usarPecaReservada` pops the stack;
- `trocarPecaAtual` swaps the front piece with the stack's top piece;
- `trocaMultipla` swaps the three front pieces with the three stack pieces.

The model is functional. Each container is a record with the same fields
as the C struct (a slot sequence plus `frente`/`traseiro`/`tamanho`, or a
slot sequence plus `topo`). Each has a representation invariant `Valida`
and an abstraction function `Conteudo`:

- the queue's `Conteudo` reads front to rear, the way the state display walks the ring;
- the stack's `Conteudo` reads base to top.

The program state is one value, `Acoes.Estado`: queue, stack and id
counter. Each action is a pure function returning the next state and an
outcome (`Desfecho`). The outcome replaces the message the program prints.

Modules, one per component:

- `Pecas`: pieces, the sentinel `{'\0', -1}`, the piece factory, id uniqueness;
- `Recipientes`: what a removal from either container hands back;
- `Filas`: the ring buffer;
- `Pilhas`: the stack;
- `Acoes`: the five actions;
- `Sistema`: start-up seeding, running a sequence of menu choices, and the reachable-state invariant.

Where the comments and the code disagree, the model follows the code:

- Both swaps return stack pieces with `enfileirar`, which appends at the
  REAR of the queue. In the block swap, the comment at tetris.c:277-278
  says the old top goes to the queue front. When the swap runs and the
  pieces held have distinct ids, that holds exactly when the queue held
  three pieces (`Acoes.TrocaMultiplaTopoNaFrenteSoComTres`). The single swap makes no
  such promise: its message at tetris.c:239 only says the queue received
  the old top. With distinct ids, it lands at the front exactly when the
  queue held one piece (`Acoes.TrocaTopoNaFrenteSoComUma`). In every
  reachable state the queue holds five pieces, so neither swap puts it there
  (`Sistema.TrocaNuncaPoeTopoNaFrente`, `Sistema.TrocaMultiplaNuncaPoeTopoNaFrente`).
- On queue A B C D E and stack X Y Z (top first), the block swap gives
  queue D E X Y Z, not X Y Z D E (`Acoes.CenarioTrocaMultipla`). The new
  stack is C B A (top first).

C's `%` truncates toward zero and Dafny's is Euclidean. Every operand the
program reduces is non-negative (`traseiro + 1 >= 0`, `frente + 1 >= 0`,
`rand() >= 0`), so the two agree on every case the model covers.

## Model

| member | source | states |
|---|---|---|
| `Pecas.GerarPeca` | tetris.c:139-146 | a created piece's id is the counter value before the call, the counter moves on by one, the label is one of I O T L J S Z, and the piece is never the sentinel |
| `Pecas.GerarVarias` | tetris.c:73-75 | n factory calls in a row yield n pieces and move the counter on by exactly n |
| `Pecas.GerarVariasIds` | tetris.c:139-146 | successive factory calls give ids counter, counter+1, …: strictly increasing, pairwise distinct, non-negative (never the sentinel's -1), all labels in the alphabet |
| `Filas.InicializarFila` | tetris.c:133-135 | a fresh queue satisfies the ring invariant and holds no pieces |
| `Filas.FilaEstaVazia` | tetris.c:149-151 | true exactly when the queue holds no pieces |
| `Filas.FilaEstaCheia` | tetris.c:152-154 | true exactly when the queue holds five pieces |
| `Filas.EscritaNoFim` | tetris.c:157-160 | writing the slot after the rear index of a non-full queue (front reset to 0 when empty) keeps the ring invariant and appends exactly that piece |
| `Filas.FrenteAvancada` | tetris.c:165-171 | advancing the front index modulo 5 on a queue of two or more drops exactly the front piece |
| `Filas.Enfileirar` | tetris.c:155-161 | keeps the ring invariant; a full queue is returned unchanged; otherwise the contents become old contents + [piece] |
| `Filas.Desenfileirar` | tetris.c:162-173 | keeps the ring invariant (including the reset to -1/-1 when the last piece leaves); on an empty queue returns the sentinel and changes nothing; otherwise returns the front piece and leaves exactly the rest |
| `Filas.PeekFila` | tetris.c:174-177 | returns the sentinel on an empty queue, otherwise the front piece |
| `Filas.PeekIgualDesenfileirar` | tetris.c:162-177 | peek and removal see the same piece |
| `Filas.LeiFifo` | tetris.c:155-173 | two pieces enqueued in turn onto an empty queue come out in the same order |
| `Filas.TamanhoLimitado` | tetris.c:155-173 | enqueue and dequeue keep the occupancy in [0, 5], changing it by exactly one unless the queue is full or empty |
| `Filas.DesenfileirarVarias` | tetris.c:262-264 | n removals in a row yield the first n pieces in queue order and leave the rest; past the end they yield sentinels and leave the queue empty |
| `Filas.EnfileirarTodos` | tetris.c:279-281 | enqueueing a sequence appends it in order while it fits; pieces that find the queue full are dropped |
| `Filas.ListarFila` | tetris.c:293-302 | the display's walk from `frente` around the ring, `tamanho` steps, lists exactly the abstract contents front to rear |
| `Pilhas.InicializarPilha` | tetris.c:136-138 | a fresh stack is valid and holds no pieces |
| `Pilhas.PilhaEstaVazia` | tetris.c:180-182 | true exactly when the stack holds no pieces |
| `Pilhas.PilhaEstaCheia` | tetris.c:183-185 | true exactly when the stack holds three pieces |
| `Pilhas.Empilhar` | tetris.c:186-190 | keeps -1 <= topo <= 2; a full stack is returned unchanged; otherwise the piece goes on top of the old contents |
| `Pilhas.Desempilhar` | tetris.c:191-197 | on an empty stack returns the sentinel and changes nothing; otherwise returns the top piece and leaves the pieces below it |
| `Pilhas.PeekPilha` | tetris.c:198-201 | returns the sentinel on an empty stack, otherwise the top piece |
| `Pilhas.PeekIgualDesempilhar` | tetris.c:191-201 | peek and pop see the same piece |
| `Pilhas.DesempilharDesfazEmpilhar` | tetris.c:186-197 | popping right after pushing onto a non-full stack returns the pushed piece and the previous contents |
| `Pilhas.LeiLifo` | tetris.c:186-197 | two pieces pushed in turn onto an empty stack come out in reverse order |
| `Pilhas.DesempilharVarias` | tetris.c:267-269 | n pops in a row yield the top n pieces, top first, and leave the rest; past the bottom they yield sentinels |
| `Pilhas.EmpilharTodos` | tetris.c:273-275 | pushing a sequence puts its first piece nearest the base while it fits; pieces that find the stack full are dropped |
| `Pilhas.ListarPilha` | tetris.c:308-316 | the display's walk from `topo` down to slot 0 lists the contents top to base |
| `Acoes.JogarPeca` | tetris.c:204-211 | on an empty queue nothing changes; otherwise the queue becomes old[1..] + [fresh piece with id = counter], stack untouched, counter +1 |
| `Acoes.ReservarPeca` | tetris.c:212-221 | with an empty queue, or else a full stack, nothing changes (reported in that order); otherwise the stack gains the old front piece on top, the queue becomes old[1..] + [fresh piece], counter +1 |
| `Acoes.UsarPecaReservada` | tetris.c:222-226 | on an empty stack nothing changes; otherwise exactly the top piece is removed and reported, the queue and counter untouched |
| `Acoes.TrocaPreservaPecas` | tetris.c:234-237 | exchanging a queue's front with a stack's top only rearranges their pieces |
| `Acoes.TrocarPecaAtual` | tetris.c:229-241 | with either container empty nothing changes; otherwise the queue becomes old[1..] + [old top] and the old top is replaced by the old front; sizes, counter and the multiset of pieces are unchanged |
| `Acoes.TrocaDeBlocos` | tetris.c:258-281 | on containers passing the guards, the four loops make the stack the three front pieces and append the stack's pieces, top first, to the rest of the queue |
| `Acoes.TrocaMultiplaPreservaPecas` | tetris.c:258-281 | the block exchange only rearranges the pieces of queue and stack |
| `Acoes.TrocaMultipla` | tetris.c:246-284 | with fewer than three queued pieces, or else fewer than three stacked, nothing changes and the count held is reported; otherwise the stack (base to top) becomes [q0, q1, q2] and the queue becomes old[3..] + [old top, old middle, old base]; sizes, counter and the multiset of pieces are unchanged |
| `Acoes.InsercoesNuncaRejeitadas` | tetris.c:212-281 | every insertion inside reserve and both swaps meets a container with room: no piece is silently dropped |
| `Acoes.TrocaTopoNaFrenteSoComUma` | tetris.c:234-237 | when the pieces held have distinct ids, after a single swap the old top is at the queue front if and only if the queue held exactly one piece |
| `Acoes.TrocaMultiplaTopoNaFrenteSoComTres` | tetris.c:277-281 | when the block swap runs (three or more queued, stack full) and the pieces held have distinct ids, after it the old top is at the queue front if and only if the queue held exactly three pieces |
| `Acoes.CenarioTrocaMultipla` | tetris.c:246-284 | the block swap turns queue A B C D E and stack X Y Z (top first) into queue D E X Y Z and stack C B A (top first) |
| `Sistema.EstadoInicial` | tetris.c:68-75 | initialising both containers and enqueueing five fresh pieces gives a valid state with the counter at 5 |
| `Sistema.EstadoInicialInvariante` | tetris.c:68-75 | after seeding the queue holds the pieces with ids 0..4 in order, the stack is empty, and the invariant holds |
| `Sistema.Aplicar` | tetris.c:99-120 | each menu action 1-5 keeps both containers valid and moves the counter on by at most one; only playing and reserving move it, and the two swaps keep the multiset of pieces in play |
| `Sistema.Executar` | tetris.c:78-123 | a run of menu actions keeps the containers valid and never moves the counter back or on by more than the number of actions |
| `Sistema.JogarPreserva` | tetris.c:204-211 | playing keeps the queue at five pieces with distinct ids below the counter |
| `Sistema.ReservarPreserva` | tetris.c:212-221 | reserving keeps the queue at five pieces and all ids distinct and below the counter |
| `Sistema.UsarPreserva` | tetris.c:222-226 | using a reserved piece keeps the invariant |
| `Sistema.TrocasPreservam` | tetris.c:229-284 | both swaps keep the invariant |
| `Sistema.AplicarPreserva` | tetris.c:99-120 | each menu action 1-5 keeps the invariant |
| `Sistema.ExecutarPreserva` | tetris.c:78-123 | any sequence of menu actions from an invariant state keeps the invariant |
| `Sistema.TrocaNuncaPoeTopoNaFrente` | tetris.c:229-241 | in every reachable state, with the queue at five pieces, the single swap never leaves the old top at the queue front |
| `Sistema.TrocaMultiplaNuncaPoeTopoNaFrente` | tetris.c:246-284 | in every reachable state the block swap never leaves the old top at the queue front |
| `Sistema.Alcancaveis` | tetris.c:60-126 | every state reached after seeding has five queued pieces and no two pieces in play with the same id |

## Left out

- The I/O of the loop in `main` is not modelled: the menu text, `scanf` parsing and `limparBuffer` (tetris.c:78-126, 322-325). Choices 1-5 are `Sistema.Acao`; the loop itself is `Sistema.Executar`. Choice 0 (which ends the loop) and invalid or unrecognised input (which leave the state unchanged) are not modelled.
- `printf` messages are not modelled. Each action returns a `Desfecho` outcome carrying the same information.
- `exibirEstadoAtual` (tetris.c:288-320) is modelled only as the two traversals (`Filas.ListarFila`, `Pilhas.ListarPilha`), which return the listed pieces instead of printing them.
- `srand`, `rand` and `time` are not modelled. The draw is a parameter `rand: nat -> nat`, indexed by the counter value, since each factory call draws once and bumps the counter once. The label is `TIPOS[rand(id) % 7]`.
- C `int` overflow of `proximo_id` is not modelled: the counter is an unbounded `nat`.
- `Filas.InicializarFila`: C leaves the slots uninitialised; the model fills them with the sentinel. No observable behaviour depends on those slots.
- `Pilhas.InicializarPilha`: the same, for the stack's slots.
- `Sistema.EstadoInicial`: the seeding loop is modelled as making the five pieces and then enqueueing them in order. This is the same computation, because making a piece does not depend on the queue.
