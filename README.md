# Tetris "next pieces" queue — a verified model

This project models the preview window of upcoming pieces in the Tetris Stack
exercise (`tetris.c`). The window is a fixed-capacity circular queue. It holds
`MAX_SIZE = 5` pieces in an array, with three integers: `frente` (the front
index), `tras` (the next free slot) and `tamanho` (the element count). A
generator with a persistent counter hands out pieces `[tag id]`. The tag is
drawn from `I`, `O`, `T`, `L` and the id is 0, 1, 2, … At start-up the program
fills the queue. Each menu choice after that either plays the front piece
(option 1) or generates a new piece and inserts it (option 2).

The model is in three modules:

- `Pieces` (pieces.dfy): the `Piece` value, the tag choice `TagOf`, and the
  `Generator` class. The static counter `proximoId` is its field `nextId`.
  A ghost history `Issued` records every piece handed out.
- `CircularQueue` (queue.dfy): the `Queue` class. Its fields are the array
  `items` and the integers `front`, `rear` and `size` (C's `frente`, `tras`
  and `tamanho`). `Valid()` is the index invariant:
  `0 <= size <= 5`, `0 <= front, rear < 5` and `rear == (front + size) % 5`.
  `Contents()` gives the abstract FIFO sequence. It is `Window(items, front, size)`:
  the `size` slots `(front + i) % 5` for `i` from 0, the order in which the
  display loop walks them.
- `Session` (session.dfy): the start-up pre-fill, one iteration of the menu
  loop (`Step`), and the loop itself over a finite script of choices (`Run`).
  `Consistent` is the session invariant. It says the queue holds exactly the
  most recently generated pieces, oldest first.

Names follow Dafny style. The C names map as follows:

- `inicializarFila` is `Queue`'s constructor.
- `estaVazia` is `IsEmpty`, and `estaCheia` is `IsFull`.
- `enqueue` is `Enqueue`, and `dequeue` is `Dequeue`.
- `exibirFila` is `Traverse`, and `gerarPeca` is `Generate`.

Design choices and their effect on the model:

- `enqueue` returns 1 or 0 in C. Here `Enqueue` returns a `bool`.
- `dequeue` returns 1 or 0 and writes the piece through its `out` pointer. Here
  `Dequeue` returns `Option<Piece>`: `Some(p)` is success, `None` is the empty
  queue.
- `rand()` becomes a `roll: nat` argument. The tag is `Tags[roll % 4]`, the
  same computation as `tipos[rand() % 4]`.

The C code keeps `tras` next to `frente` and `tamanho` and updates it
separately in `enqueue`. The model keeps `rear` as a field too, and `Valid()`
ties it to the other two.

`Session.Scenario` is a verified client of the model. It starts a session,
plays a piece, inserts one, is refused an insert on the full queue, plays all
five remaining pieces in id order and is refused a play on the empty queue.

## Model

| member | source | states |
|---|---|---|
| Pieces.TagOf | tetris.c:146-148 | the tag picked for any draw is one of `I`, `O`, `T`, `L` |
| Pieces.TagReachable | tetris.c:146-148 | every tag of the alphabet is picked by some draw, so the choice covers the whole alphabet |
| Pieces.Generator.constructor | tetris.c:143 | the counter starts at 0 and no piece has been issued yet |
| Pieces.Generator.Generate | tetris.c:142-151 | the piece has the drawn tag and the counter's old value as its id; the counter goes up by exactly one; the history grows by that piece, so the ids issued so far are 0, 1, …, nextId-1 in order, with no repeats |
| CircularQueue.WindowPush | tetris.c:123-125 | writing a piece into the free slot `(front + size) % 5` of a non-full ring appends it to the front-to-back order and leaves the earlier pieces as they were |
| CircularQueue.WindowPop | tetris.c:133-135 | the first piece of a non-empty front-to-back order is the slot at `frente`, and the rest is the order read from the slot after it, `(frente + 1) % 5`, one piece shorter |
| CircularQueue.Queue.constructor | tetris.c:104-108 | `frente`, `tras` and `tamanho` are all 0, the invariant holds and the queue's contents are empty |
| CircularQueue.Queue.IsEmpty | tetris.c:111-113 | holds iff `tamanho == 0`, and for a valid queue iff its contents are the empty sequence |
| CircularQueue.Queue.IsFull | tetris.c:116-118 | holds iff `tamanho == MAX_SIZE`, and for a valid queue iff it holds 5 pieces |
| CircularQueue.Queue.Enqueue | tetris.c:121-127 | fails exactly on a full queue, and then changes nothing; otherwise writes `p` at the old `tras` and no other slot, advances `tras` modulo 5, increments `tamanho`, keeps `frente`, preserves the invariant and appends `p` to the contents |
| CircularQueue.Queue.Dequeue | tetris.c:130-138 | fails exactly on an empty queue, and then changes nothing; otherwise returns the piece at the old `frente` (the first of the contents), advances `frente` modulo 5, decrements `tamanho`, never writes the array, preserves the invariant and leaves the rest of the contents |
| CircularQueue.Queue.Traverse | tetris.c:155-169 | the traversal yields exactly the contents, `tamanho` pieces long, the i-th being slot `(frente + i) % 5`, and it modifies nothing |
| Session.Start | tetris.c:39-49 | after initialisation and the pre-fill loop the queue is full, every enqueue in the loop succeeds, the pieces are ids 0..4 in order with their drawn tags, and the counter is 5 |
| Session.Step | tetris.c:62-92 | option 1 plays the front piece or, on an empty queue, changes nothing; option 2 on a full queue changes neither the queue nor the counter, otherwise it appends a new piece whose id is the counter, which then advances; options 0, other numbers and unreadable input change nothing; the report is the one `Answers` fixes for the choice, the queue length before the step and the draw; the queue before plus the piece inserted equals the piece played plus the queue after; the generator's history grows by exactly the inserted piece; the session invariant is preserved |
| Session.AnswersDecide | tetris.c:62-92 | an answered choice fixes the report in both directions: option 0 exactly when leaving, option 1 plays exactly on a non-empty queue and finds nothing exactly on an empty one, option 2 inserts exactly on a non-full queue (with the drawn tag) and finds it full exactly on a full one, other numbers are unknown and unreadable input is invalid |
| Session.TranscriptDecides | tetris.c:71-86 | over a whole transcript, each step's report is nothing-to-play exactly when option 1 meets an empty queue, queue-full exactly when option 2 meets a full queue, and each inserted piece has its draw's tag |
| Session.ConsecutiveIds | tetris.c:81-87 | in a consistent session the ids in the queue are consecutive from front to back and end just below the counter |
| Session.Run | tetris.c:51-98 | the loop stops at the first option 0 or at the end of the script; the k-th report answers the k-th choice given the queue length before step k, `Held(|old contents|, reports[..k])`, and the k-th draw; option 1 finds nothing to play exactly when that length is 0, option 2 finds the queue full exactly when it is 5, and every inserted piece carries the tag of its draw; the queue is a FIFO over the run: its old contents followed by the inserted pieces equal the played pieces followed by its new contents; the generator issued exactly the inserted pieces, so the counter advances by their number; the session invariant is preserved |

## Left out

- Console output: the `printf` calls, the text rendering of `exibirFila` (including the `[fila vazia]` marker, which corresponds to an empty traversal) and `mostrarMenu`. These are display only.
- Input parsing: `scanf("%d")` and the `getchar` loops that drain the line. A choice arrives already read, as `Number(n)` or `Unreadable`.
- `srand(time(NULL))` and `rand()`: foreign library calls. Each draw is an input (`roll`, `rolls`, `draws`).
- The `out != NULL` check in `dequeue`: pointer plumbing. `Dequeue` always returns the removed piece.
- Generate: does not model the overflow of the `int` counter `proximoId` or of the `int` id of a piece. Both are unbounded `nat`s here.
- The array slots that `inicializarFila` leaves uninitialised hold a default piece in the model. The contracts never read slots outside the window, so the values do not matter.
- Run: covers a finite script of choices. The C loop repeats until option 0 is read, with no bound. When input ends, `scanf` keeps failing and the loop never exits. This model does not capture that, because it does not model the input stream.
