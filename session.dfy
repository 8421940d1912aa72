// The game session: the queue is filled at start-up, then each menu choice
// either plays the front piece or inserts a freshly generated one.

module Session {
  import opened Pieces
  import opened CircularQueue

  /** What reading one menu choice produced: a number, or input that is not a number. */
  datatype Reading = Number(n: int) | Unreadable

  /** The outcome of one menu step, as it is reported to the player. */
  datatype Report =
    | Played(piece: Piece)     // option 1 removed this piece from the front
    | NothingToPlay            // option 1 on an empty queue
    | Inserted(piece: Piece)   // option 2 generated and appended this piece
    | QueueFull                // option 2 on a full queue
    | Leaving                  // option 0
    | UnknownOption            // any other number
    | InvalidInput             // not a number

  /**
   * The queue holds exactly the most recently generated pieces, oldest first:
   * the last |Contents()| entries of the generator's history.
   */
  ghost predicate Consistent(q: Queue, g: Generator)
    reads q, q.items, g
  {
    q.Valid() && g.Valid() && Newest(q.Contents(), g.Issued)
  }

  /** `c` is the last |c| entries of the history `h`. */
  ghost predicate Newest(c: seq<Piece>, h: seq<Piece>) {
    |c| <= |h| && c == h[|h| - |c|..]
  }

  /** Proof helper for Step: removing the oldest of the newest entries leaves newest entries. */
  lemma NewestPop(c: seq<Piece>, h: seq<Piece>)
    requires Newest(c, h) && c != []
    ensures Newest(c[1..], h)
  {
    assert c[1..] == h[|h| - |c| + 1..];
  }

  /** Proof helper for Step: a piece appended to both the queue and the history keeps the queue newest. */
  lemma NewestPush(c: seq<Piece>, h: seq<Piece>, p: Piece)
    requires Newest(c, h)
    ensures Newest(c + [p], h + [p])
  {
    assert (h + [p])[|h| - |c|..] == h[|h| - |c|..] + [p];
  }

  /** In a consistent session the ids in the queue are consecutive, front first, ending just below the counter. */
  lemma ConsecutiveIds(q: Queue, g: Generator)
    requires Consistent(q, g)
    ensures forall i :: 0 <= i < |q.Contents()| ==> q.Contents()[i].id == g.nextId - |q.Contents()| + i
  {
    var s, h := q.Contents(), g.Issued;
    forall i | 0 <= i < |s| ensures s[i].id == g.nextId - |s| + i {
      assert s[i] == h[|h| - |s| + i];
    }
  }

  /**
   * Start-up: an empty queue and a counter at zero, then MaxSize generated pieces
   * enqueued, the i-th drawn with `rolls[i]`. The session starts full with ids 0..MaxSize-1.
   */
  method Start(rolls: seq<nat>) returns (q: Queue, g: Generator)
    requires |rolls| == MaxSize
    ensures fresh(q) && fresh(q.items) && fresh(g)
    ensures Consistent(q, g) && q.IsFull() && g.nextId == MaxSize
    ensures |q.Contents()| == MaxSize
    ensures forall i :: 0 <= i < MaxSize ==> q.Contents()[i] == Piece(TagOf(rolls[i]), i)
  {
    q := new Queue();
    g := new Generator();
    var i := 0;
    while i < MaxSize
      invariant 0 <= i <= MaxSize
      invariant fresh(q) && fresh(q.items) && fresh(g)
      invariant q.Valid() && g.Valid()
      invariant g.nextId == i && q.size == i
      invariant q.Contents() == g.Issued
      invariant forall k :: 0 <= k < i ==> g.Issued[k] == Piece(TagOf(rolls[k]), k)
    {
      var p := g.Generate(rolls[i]);
      var ok := q.Enqueue(p);
      assert ok;
      i := i + 1;
    }
  }

  /**
   * One iteration of the menu loop for the choice `input`; `roll` is the draw the
   * generator uses if a piece is generated. Option 2 tests for a full queue BEFORE
   * generating, so a rejected insert consumes no id.
   */
  method Step(q: Queue, g: Generator, input: Reading, roll: nat) returns (report: Report)
    requires q.Valid() && g.Valid()
    modifies q, q.items, g
    ensures q.Valid() && g.Valid()
    ensures old(Consistent(q, g)) ==> Consistent(q, g)
    ensures Answers(input, |old(q.Contents())|, roll, report)
    ensures old(q.Contents()) + InsertedPiece(report) == PlayedPiece(report) + q.Contents()
    ensures g.Issued == old(g.Issued) + InsertedPiece(report)
    ensures g.nextId == old(g.nextId) + |InsertedPiece(report)|
    ensures input == Number(1) && old(q.size) == 0 ==>
              report == NothingToPlay && unchanged(q, q.items, g)
    ensures input == Number(1) && old(q.size) > 0 ==>
              report == Played(old(q.Contents())[0]) &&
              q.Contents() == old(q.Contents())[1..] &&
              unchanged(q.items, g)
    ensures input == Number(2) && old(q.size) == MaxSize ==>
              report == QueueFull && unchanged(q, q.items, g)
    ensures input == Number(2) && old(q.size) < MaxSize ==>
              report == Inserted(Piece(TagOf(roll), old(g.nextId))) &&
              q.Contents() == old(q.Contents()) + [report.piece] &&
              g.nextId == old(g.nextId) + 1 &&
              g.Issued == old(g.Issued) + [report.piece]
    ensures input == Number(0) ==> report == Leaving && unchanged(q, q.items, g)
    ensures input.Number? && input.n != 0 && input.n != 1 && input.n != 2 ==>
              report == UnknownOption && unchanged(q, q.items, g)
    ensures input == Unreadable ==> report == InvalidInput && unchanged(q, q.items, g)
  {
    if input == Unreadable {
      return InvalidInput;
    }
    var option := input.n;
    if option == 1 {
      ghost var before, history := q.Contents(), g.Issued;
      var removed := q.Dequeue();
      if removed.Some? {
        report := Played(removed.value);
        assert before == [removed.value] + q.Contents();
        if Newest(before, history) {
          NewestPop(before, history);
        }
      } else {
        report := NothingToPlay;
      }
    } else if option == 2 {
      if q.IsFull() {
        report := QueueFull;
      } else {
        ghost var before, history := q.Contents(), g.Issued;
        var piece := g.Generate(roll);
        var ok := q.Enqueue(piece);
        if Newest(before, history) {
          NewestPush(before, history, piece);
        }
        report := Inserted(piece);
      }
    } else if option == 0 {
      report := Leaving;
    } else {
      report := UnknownOption;
    }
  }

  /**
   * The report each menu choice gets when the queue holds `held` pieces and the
   * generator would draw `roll`: option 1 plays exactly when the queue is not
   * empty, option 2 inserts a piece with the drawn tag exactly when it is not full.
   */
  predicate Answers(input: Reading, held: int, roll: nat, r: Report) {
    match input
    case Unreadable => r == InvalidInput
    case Number(n) =>
      if n == 0 then r == Leaving
      else if n == 1 then (if held == 0 then r == NothingToPlay else r.Played?)
      else if n == 2 then (if held == MaxSize then r == QueueFull else r.Inserted? && r.piece.name == TagOf(roll))
      else r == UnknownOption
  }

  /** What an answer tells about the choice and the queue, in both directions. */
  lemma AnswersDecide(input: Reading, held: int, roll: nat, r: Report)
    requires Answers(input, held, roll, r)
    ensures r == Leaving <==> input == Number(0)
    ensures r == NothingToPlay <==> input == Number(1) && held == 0
    ensures r.Played? <==> input == Number(1) && held != 0
    ensures r == QueueFull <==> input == Number(2) && held == MaxSize
    ensures r.Inserted? <==> input == Number(2) && held != MaxSize
    ensures r.Inserted? ==> r.piece.name == TagOf(roll)
    ensures r == UnknownOption <==> input.Number? && input.n != 0 && input.n != 1 && input.n != 2
    ensures r == InvalidInput <==> input == Unreadable
  {
  }

  /** The piece a report says was inserted, if any. */
  function InsertedPiece(r: Report): (s: seq<Piece>) {
    if r.Inserted? then [r.piece] else []
  }

  /** The piece a report says was played, if any. */
  function PlayedPiece(r: Report): (s: seq<Piece>) {
    if r.Played? then [r.piece] else []
  }

  /** The pieces inserted over a run of reports, in order. */
  function Insertions(reports: seq<Report>): (s: seq<Piece>) {
    if reports == [] then []
    else InsertedPiece(reports[0]) + Insertions(reports[1..])
  }

  /** The pieces played over a run of reports, in order. */
  function Plays(reports: seq<Report>): (s: seq<Piece>) {
    if reports == [] then []
    else PlayedPiece(reports[0]) + Plays(reports[1..])
  }

  /** The length of a queue that held `initial` pieces once the steps reported by `reports` are done. */
  function Held(initial: int, reports: seq<Report>): (n: int) {
    initial + |Insertions(reports)| - |Plays(reports)|
  }

  /** Insertions over one more report: the earlier insertions, then that report's piece. */
  lemma {:induction false} InsertionsAppend(reports: seq<Report>, r: Report)
    ensures Insertions(reports + [r]) == Insertions(reports) + InsertedPiece(r)
  {
    if reports != [] {
      assert (reports + [r])[1..] == reports[1..] + [r];
      InsertionsAppend(reports[1..], r);
    }
  }

  /** Plays over one more report: the earlier plays, then that report's piece. */
  lemma {:induction false} PlaysAppend(reports: seq<Report>, r: Report)
    ensures Plays(reports + [r]) == Plays(reports) + PlayedPiece(r)
  {
    if reports != [] {
      assert (reports + [r])[1..] == reports[1..] + [r];
      PlaysAppend(reports[1..], r);
    }
  }

  /** Proof helper for the loop of Run: one more step extends the FIFO conservation law of the steps before it. */
  lemma FifoExtend(start: seq<Piece>, ins: seq<Piece>, plays: seq<Piece>, before: seq<Piece>, after: seq<Piece>, r: Report)
    requires start + ins == plays + before
    requires before + InsertedPiece(r) == PlayedPiece(r) + after
    ensures start + (ins + InsertedPiece(r)) == (plays + PlayedPiece(r)) + after
  {
    calc {
      start + (ins + InsertedPiece(r));
      (plays + before) + InsertedPiece(r);
      plays + (PlayedPiece(r) + after);
    }
  }

  /** Proof helper for the loop of Run: a history that grows by the piece a report inserted stays the start followed by all insertions. */
  lemma HistoryExtend(start: seq<Piece>, ins: seq<Piece>, before: seq<Piece>, after: seq<Piece>, r: Report)
    requires before == start + ins
    requires after == before + InsertedPiece(r)
    ensures after == start + (ins + InsertedPiece(r))
  {
  }

  /** Proof helper for the loop of Run: a report that answers the next choice extends a transcript in which every report answers its choice. */
  lemma AnswersExtend(inputs: seq<Reading>, draws: seq<nat>, initial: int, reports: seq<Report>, r: Report)
    requires |reports| < |inputs| == |draws|
    requires forall k :: 0 <= k < |reports| ==> Answers(inputs[k], Held(initial, reports[..k]), draws[k], reports[k])
    requires Answers(inputs[|reports|], Held(initial, reports), draws[|reports|], r)
    ensures forall k :: 0 <= k < |reports| + 1 ==>
              Answers(inputs[k], Held(initial, (reports + [r])[..k]), draws[k], (reports + [r])[k])
  {
    forall k | 0 <= k < |reports| + 1
      ensures Answers(inputs[k], Held(initial, (reports + [r])[..k]), draws[k], (reports + [r])[k])
    {
      if k < |reports| {
        assert (reports + [r])[..k] == reports[..k];
      } else {
        assert (reports + [r])[..k] == reports;
      }
    }
  }

  /**
   * Over a whole transcript that answers its choices, option 1 finds nothing to play
   * exactly when the queue is empty at that step, option 2 finds the queue full exactly
   * when it is full at that step, and every inserted piece carries the tag of its draw.
   */
  lemma TranscriptDecides(inputs: seq<Reading>, draws: seq<nat>, initial: int, reports: seq<Report>)
    requires |reports| <= |inputs| == |draws|
    requires forall k :: 0 <= k < |reports| ==> Answers(inputs[k], Held(initial, reports[..k]), draws[k], reports[k])
    ensures forall k :: 0 <= k < |reports| ==>
              (reports[k] == NothingToPlay <==> inputs[k] == Number(1) && Held(initial, reports[..k]) == 0)
    ensures forall k :: 0 <= k < |reports| ==>
              (reports[k] == QueueFull <==> inputs[k] == Number(2) && Held(initial, reports[..k]) == MaxSize)
    ensures forall k :: 0 <= k < |reports| ==>
              reports[k].Inserted? ==> reports[k].piece.name == TagOf(draws[k])
  {
    forall k | 0 <= k < |reports|
      ensures reports[k] == NothingToPlay <==> inputs[k] == Number(1) && Held(initial, reports[..k]) == 0
      ensures reports[k] == QueueFull <==> inputs[k] == Number(2) && Held(initial, reports[..k]) == MaxSize
      ensures reports[k].Inserted? ==> reports[k].piece.name == TagOf(draws[k])
    {
      AnswersDecide(inputs[k], Held(initial, reports[..k]), draws[k], reports[k]);
    }
  }

  /**
   * The menu loop over a script of choices, `draws[k]` being the draw available
   * at the k-th step. It answers every choice until the first option 0, or until
   * the script is exhausted. Each answer depends on the queue length before its
   * step, `Held` of the reports so far. The queue is a FIFO over the whole run:
   * what it held before followed by the pieces inserted equals the pieces played
   * followed by what it holds now, and the generator issued exactly the inserted pieces.
   */
  method Run(q: Queue, g: Generator, inputs: seq<Reading>, draws: seq<nat>) returns (reports: seq<Report>)
    requires q.Valid() && g.Valid()
    requires |draws| == |inputs|
    modifies q, q.items, g
    ensures q.Valid() && g.Valid()
    ensures old(Consistent(q, g)) ==> Consistent(q, g)
    ensures |reports| <= |inputs|
    ensures forall k :: 0 <= k < |reports| ==>
              Answers(inputs[k], Held(|old(q.Contents())|, reports[..k]), draws[k], reports[k])
    ensures forall k :: 0 <= k < |reports| ==>
              (reports[k] == NothingToPlay <==>
               inputs[k] == Number(1) && Held(|old(q.Contents())|, reports[..k]) == 0)
    ensures forall k :: 0 <= k < |reports| ==>
              (reports[k] == QueueFull <==>
               inputs[k] == Number(2) && Held(|old(q.Contents())|, reports[..k]) == MaxSize)
    ensures forall k :: 0 <= k < |reports| ==>
              reports[k].Inserted? ==> reports[k].piece.name == TagOf(draws[k])
    ensures forall k :: 0 <= k < |reports| - 1 ==> inputs[k] != Number(0)
    ensures |reports| < |inputs| ==> |reports| > 0 && inputs[|reports| - 1] == Number(0)
    ensures old(q.Contents()) + Insertions(reports) == Plays(reports) + q.Contents()
    ensures g.Issued == old(g.Issued) + Insertions(reports)
    ensures g.nextId == old(g.nextId) + |Insertions(reports)|
  {
    reports := [];
    var i := 0;
    ghost var start, issued, consistent := q.Contents(), g.Issued, Consistent(q, g);
    while i < |inputs|
      invariant 0 <= i <= |inputs|
      invariant |reports| == i
      invariant q.Valid() && g.Valid()
      invariant consistent ==> Consistent(q, g)
      invariant forall k :: 0 <= k < i ==> Answers(inputs[k], Held(|start|, reports[..k]), draws[k], reports[k])
      invariant forall k :: 0 <= k < i ==> inputs[k] != Number(0)
      invariant start + Insertions(reports) == Plays(reports) + q.Contents()
      invariant g.Issued == issued + Insertions(reports)
      invariant g.nextId == |issued| + |Insertions(reports)|
    {
      ghost var contents, history, ins, plays := q.Contents(), g.Issued, Insertions(reports), Plays(reports);
      assert |contents| == Held(|start|, reports);
      var r := Step(q, g, inputs[i], draws[i]);
      HistoryExtend(issued, ins, history, g.Issued, r);
      InsertionsAppend(reports, r);
      PlaysAppend(reports, r);
      FifoExtend(start, ins, plays, contents, q.Contents(), r);
      AnswersExtend(inputs, draws, |start|, reports, r);
      reports := reports + [r];
      if inputs[i] == Number(0) {
        break;
      }
      i := i + 1;
    }
    TranscriptDecides(inputs, draws, |start|, reports);
  }

  /**
   * The scenario of a short session: play one piece, insert one, be refused an
   * insert on a full queue, then play all five and be refused a play on an empty queue.
   */
  method Scenario(rolls: seq<nat>, r5: nat, r6: nat)
    requires |rolls| == MaxSize
  {
    var q, g := Start(rolls);
    var rep := Step(q, g, Number(1), 0);
    assert rep == Played(Piece(TagOf(rolls[0]), 0));
    rep := Step(q, g, Number(2), r5);
    assert rep == Inserted(Piece(TagOf(r5), 5));
    rep := Step(q, g, Number(2), r6);
    assert rep == QueueFull && g.nextId == 6;
    var k := 1;
    while k <= MaxSize
      invariant 1 <= k <= MaxSize + 1
      invariant q.Valid() && g.Valid() && Consistent(q, g) && g.nextId == 6
      invariant |q.Contents()| == MaxSize + 1 - k
    {
      ConsecutiveIds(q, g);
      rep := Step(q, g, Number(1), 0);
      assert rep.Played? && rep.piece.id == k;
      k := k + 1;
    }
    rep := Step(q, g, Number(1), 0);
    assert rep == NothingToPlay;
  }
}
