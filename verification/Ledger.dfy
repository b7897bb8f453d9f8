// The bank's ledger, and the figures that let an ATM pay out while it is cut off: four fifths
// of a balance, less what has been paid out since.
module Ledger {
  import opened Csvf

  datatype Row = Row(userID: int, pinHash: int, admin: int, balance: int)

  // Four fifths of a balance, rounded down.
  function Figure(bal: int): (f: int)
    ensures bal >= 0 ==> 0 <= f <= bal
  {
    4 * bal / 5
  }

  // (int)(0.8 * bal - rem): a cast cuts towards zero.
  function CutDifference(bal: int, rem: int): int
  {
    var fifths := 4 * bal - 5 * rem;
    if fifths >= 0 then fifths / 5 else -((-fifths) / 5)
  }

  // An unsigned 32-bit word taken as a signed one.
  function AsInt(w: nat): int
    requires w < 0x1_0000_0000
  {
    if w < 0x8000_0000 then w else w - 0x1_0000_0000
  }

  // The first row of the user, if the PIN is right.
  function Find(rows: seq<Row>, userID: nat, hashedPin: nat): (r: Option<nat>)
    ensures r.Some? ==> r.value < |rows|
                        && rows[r.value].userID % 0x1_0000 == userID && rows[r.value].pinHash % 0x1_0000 == hashedPin
    decreases |rows|
  {
    if rows == [] then None
    else if userID == rows[0].userID % 0x1_0000 && hashedPin == rows[0].pinHash % 0x1_0000 then Some(0)
    else
      match Find(rows[1..], userID, hashedPin)
      case None => None
      case Some(i) => Some(i + 1)
  }

  // Whether a row has this user and this PIN hash, both cut to 16 bits.
  predicate Matching(row: Row, userID: nat, hashedPin: nat)
  {
    row.userID % 0x1_0000 == userID && row.pinHash % 0x1_0000 == hashedPin
  }

  predicate FirstMatch(rows: seq<Row>, userID: nat, hashedPin: nat, i: nat)
  {
    && i < |rows| && Matching(rows[i], userID, hashedPin)
    && forall k :: 0 <= k < i ==> !Matching(rows[k], userID, hashedPin)
  }

  predicate NoMatch(rows: seq<Row>, userID: nat, hashedPin: nat)
  {
    forall k :: 0 <= k < |rows| ==> !Matching(rows[k], userID, hashedPin)
  }

  // The search finds the first row that matches, and nothing exactly when none does.
  lemma {:induction false} FindExact(rows: seq<Row>, userID: nat, hashedPin: nat, i: nat)
    ensures Find(rows, userID, hashedPin) == None <==> NoMatch(rows, userID, hashedPin)
    ensures Find(rows, userID, hashedPin) == Some(i) <==> FirstMatch(rows, userID, hashedPin, i)
    decreases |rows|
  {
    if rows != [] {
      var rest := rows[1..];
      FindExact(rest, userID, hashedPin, if i > 0 then i - 1 else 0);
      assert forall k :: 0 < k < |rows| ==> rows[k] == rest[k - 1];
      assert forall k :: 0 <= k < |rest| ==> rest[k] == rows[k + 1];
    }
  }

  predicate Sufficient(bal: int, amount: int)
  {
    5 * amount <= 4 * bal
  }

  datatype Reply = Paid(figure: int) | Refused(figure: int) | Administrator | Unknown | NoCache

  // ---------- The truncated arithmetic loses nothing ----------

  // The returned figures from which the bank gathers that paid was paid out: the figure less
  // that much; and if nothing was, also the next one, when four fifths are not whole.
  predicate Tells(bal: int, rem: int, paid: nat)
  {
    rem == Figure(bal) - paid || (paid == 0 && rem == Figure(bal) + 1 && 4 * bal % 5 != 0)
  }

  lemma CutExact(bal: int, rem: int, paid: nat)
    ensures CutDifference(bal, rem) == paid <==> Tells(bal, rem, paid)
  {
  }

  // What may be paid out while cut off never overdraws the account.
  lemma FigureCovers(bal: nat, paid: nat)
    requires paid <= Figure(bal)
    ensures paid <= bal && Sufficient(bal, paid)
  {
  }

  // Online, enough is exactly no more than the figure.
  lemma SufficientExact(bal: nat, amount: int)
    ensures Sufficient(bal, amount) <==> amount <= Figure(bal)
  {
  }

  // ---------- The service ----------

  class Bank {
    var rows: seq<Row>

    constructor (rows: seq<Row>)
      ensures this.rows == rows
    {
      this.rows := rows;
    }

    method FindUser(userID: nat, hashedPin: nat) returns (line: Option<nat>)
      ensures line == Find(rows, userID, hashedPin)
      ensures line.None? <==> NoMatch(rows, userID, hashedPin)
      ensures line.Some? ==> FirstMatch(rows, userID, hashedPin, line.value)
    {
      hide Find;
      var i := 0;
      while i < |rows|
        invariant i <= |rows| && forall k :: 0 <= k < i ==> !Matching(rows[k], userID, hashedPin)
      {
        if userID == rows[i].userID % 0x1_0000 && hashedPin == rows[i].pinHash % 0x1_0000 {
          FindExact(rows, userID, hashedPin, i);
          return Some(i);
        }
        i := i + 1;
      }
      FindExact(rows, userID, hashedPin, 0);
      line := None;
    }

    // Commands 1 and 2: pay out, or just look, online.
    method Serve(pay: bool, userID: nat, hashedPin: nat, word: nat) returns (reply: Reply)
      requires word < 0x1_0000_0000
      modifies this
      ensures (reply, rows) == Served(old(rows), pay, userID, hashedPin, word)
    {
      var line := FindUser(userID, hashedPin);
      if line.None? {
        return Unknown;
      }
      var i := line.value;
      if rows[i].admin == 1 {
        return Administrator;
      }
      var bal, amount := rows[i].balance, AsInt(word);
      if Sufficient(bal, amount) {
        if pay {
          reply := Paid(CutDifference(bal - amount, 0));
          rows := rows[i := rows[i].(balance := bal - amount)];
        } else {
          reply := Paid(CutDifference(bal, 0));
        }
      } else {
        reply := Refused(CutDifference(bal, 0));
      }
    }

    // Command 5: the ATM is back, and returns what is left of its figure.
    method Reconcile(userID: nat, hashedPin: nat, word: nat) returns (reply: Reply)
      requires word < 0x1_0000_0000
      modifies this
      ensures (reply, rows) == Reconciled(old(rows), userID, hashedPin, word)
    {
      var line := FindUser(userID, hashedPin);
      if line.None? {
        return NoCache;
      }
      var i := line.value;
      if rows[i].admin == 1 {
        return Administrator;
      }
      var bal, remCacheBal := rows[i].balance, AsInt(word);
      var finalBal := CutDifference(bal, remCacheBal);
      finalBal := bal - finalBal;
      reply := Paid(CutDifference(finalBal, 0));
      rows := rows[i := rows[i].(balance := finalBal)];
    }
  }

  function Served(rows: seq<Row>, pay: bool, userID: nat, hashedPin: nat, word: nat): (Reply, seq<Row>)
    requires word < 0x1_0000_0000
  {
    match Find(rows, userID, hashedPin)
    case None => (Unknown, rows)
    case Some(i) =>
      var bal, amount := rows[i].balance, AsInt(word);
      if rows[i].admin == 1 then (Administrator, rows)
      else if !Sufficient(bal, amount) then (Refused(CutDifference(bal, 0)), rows)
      else if pay then (Paid(CutDifference(bal - amount, 0)), rows[i := rows[i].(balance := bal - amount)])
      else (Paid(CutDifference(bal, 0)), rows)
  }

  function Reconciled(rows: seq<Row>, userID: nat, hashedPin: nat, word: nat): (Reply, seq<Row>)
    requires word < 0x1_0000_0000
  {
    match Find(rows, userID, hashedPin)
    case None => (NoCache, rows)
    case Some(i) =>
      if rows[i].admin == 1 then (Administrator, rows)
      else
        var bal := rows[i].balance;
        var finalBal := bal - CutDifference(bal, AsInt(word));
        (Paid(CutDifference(finalBal, 0)), rows[i := rows[i].(balance := finalBal)])
  }

  // Four fifths of a balance, the fraction dropped.
  predicate FourFifths(f: int, bal: int)
  {
    if bal >= 0 then 5 * f <= 4 * bal < 5 * f + 5 else 5 * f - 5 < 4 * bal <= 5 * f
  }

  // Commands 1 and 2 serve whoever is in the first row that matches, but for an administrator:
  // they pay exactly if four fifths of the balance cover the request, taken as a signed word,
  // and reply four fifths of the balance that is left.
  lemma ServedExact(rows: seq<Row>, pay: bool, userID: nat, hashedPin: nat, word: nat, i: nat)
    requires word < 0x1_0000_0000 && FirstMatch(rows, userID, hashedPin, i)
    ensures var (reply, after) := Served(rows, pay, userID, hashedPin, word);
            var bal, amount := rows[i].balance, if word < 0x8000_0000 then word else word - 0x1_0000_0000;
            && (reply.Administrator? <==> rows[i].admin == 1)
            && (reply.Paid? <==> rows[i].admin != 1 && 5 * amount <= 4 * bal)
            && (reply.Refused? <==> rows[i].admin != 1 && 5 * amount > 4 * bal)
            && after == (if pay && reply.Paid? then rows[i := rows[i].(balance := bal - amount)] else rows)
            && (reply.Paid? || reply.Refused? ==> FourFifths(reply.figure, after[i].balance))
  {
    hide Find, FirstMatch;
    FindExact(rows, userID, hashedPin, i);
    FoundInRange(rows, userID, hashedPin, i);
  }

  // Command 5 replies four fifths of the balance that it leaves.
  lemma ReconciledReply(rows: seq<Row>, userID: nat, hashedPin: nat, word: nat, i: nat)
    requires word < 0x1_0000_0000 && FirstMatch(rows, userID, hashedPin, i)
    ensures var (reply, after) := Reconciled(rows, userID, hashedPin, word);
            if rows[i].admin == 1 then reply == Administrator && after == rows
            else reply.Paid? && |after| == |rows| && FourFifths(reply.figure, after[i].balance)
  {
    hide Find, FirstMatch;
    FindExact(rows, userID, hashedPin, i);
    FoundInRange(rows, userID, hashedPin, i);
  }

  // Nobody else is served.
  lemma NobodyServed(rows: seq<Row>, pay: bool, userID: nat, hashedPin: nat, word: nat)
    requires word < 0x1_0000_0000 && NoMatch(rows, userID, hashedPin)
    ensures Served(rows, pay, userID, hashedPin, word) == (Unknown, rows)
    ensures Reconciled(rows, userID, hashedPin, word) == (NoCache, rows)
  {
    hide Find;
    FindExact(rows, userID, hashedPin, 0);
  }

  lemma FoundInRange(rows: seq<Row>, userID: nat, hashedPin: nat, i: nat)
    requires FirstMatch(rows, userID, hashedPin, i)
    ensures i < |rows|
  {
  }

  // The user's row, if there is one that money can be drawn from.
  predicate Customer(rows: seq<Row>, userID: nat, hashedPin: nat, i: nat)
  {
    Find(rows, userID, hashedPin) == Some(i) && rows[i].admin != 1
  }

  // A payment raises the balance exactly when the request has its top bit set and is
  // granted; any other leaves it non-negative if it was.
  lemma PaymentLowers(rows: seq<Row>, userID: nat, hashedPin: nat, word: nat, i: nat)
    requires word < 0x1_0000_0000 && Customer(rows, userID, hashedPin, i)
    ensures var (reply, after) := Served(rows, true, userID, hashedPin, word);
            && |after| == |rows|
            && (after[i].balance > rows[i].balance <==> word >= 0x8000_0000 && reply.Paid?)
            && (rows[i].balance >= 0 ==> after[i].balance >= 0)
            && (rows[i].balance >= 0 && word >= 0x8000_0000 ==> reply.Paid?)
            && forall k :: 0 <= k < |rows| && k != i ==> after[k] == rows[k]
  {
    hide Find;
  }

  // A request of -1 credits one unit.
  lemma NegativeRequest(row: Row)
    requires row.admin != 1 && row.balance >= 0
    ensures var (u, p) := (row.userID % 0x1_0000, row.pinHash % 0x1_0000);
            Served([row], true, u, p, 0xFFFF_FFFF).1 == [row.(balance := row.balance + 1)]
  {
    var u, p := row.userID % 0x1_0000, row.pinHash % 0x1_0000;
    assert Find([row], u, p) == Some(0);
    assert Sufficient(row.balance, -1);
    assert [row][0 := row.(balance := row.balance + 1)] == [row.(balance := row.balance + 1)];
  }

  // Command 5 books exactly what was paid out, for every row, returned word and amount, if
  // and only if the word tells so.
  lemma ReconciledExact(rows: seq<Row>, userID: nat, hashedPin: nat, word: nat, paid: nat, i: nat)
    requires word < 0x1_0000_0000 && Customer(rows, userID, hashedPin, i)
    ensures var bal := rows[i].balance;
            Reconciled(rows, userID, hashedPin, word).1 == rows[i := rows[i].(balance := bal - paid)]
            <==> Tells(bal, AsInt(word), paid)
  {
    hide Find, Figure, CutDifference, AsInt;
    var bal, rem := rows[i].balance, AsInt(word);
    CutExact(bal, rem, paid);
    var after := Reconciled(rows, userID, hashedPin, word).1;
    assert after[i].balance == bal - CutDifference(bal, rem);
    assert rows[i := rows[i].(balance := bal - paid)][i].balance == bal - paid;
  }

  // An ATM that was never sent a figure has none to return. Returning zero then books cash
  // that was not paid out, unless the balance is next to nothing.
  lemma ReturnWithoutFigure(rows: seq<Row>, userID: nat, hashedPin: nat, i: nat)
    requires Customer(rows, userID, hashedPin, i)
    ensures Reconciled(rows, userID, hashedPin, 0).1 == rows <==> -1 <= rows[i].balance <= 1
  {
    hide Find;
    ReconciledExact(rows, userID, hashedPin, 0, 0, i);
    assert rows[i := rows[i].(balance := rows[i].balance - 0)] == rows;
  }

  // ---------- Runs ----------

  // For each row, whether its ATM holds a figure, what is left of it, what the ATM has paid
  // out since it was last in touch, and all that has ever been paid out.
  datatype Account = Account(known: bool, cached: int, offline: nat, dispensed: nat)

  const UNTOUCHED := Account(false, 0, 0, 0)

  datatype World = World(rows: seq<Row>, accounts: seq<Account>)

  datatype Step =
    | Online(pay: bool, userID: nat, hashedPin: nat, amount: nat)
    | Offline(line: nat, amount: nat)
    | Return(userID: nat, hashedPin: nat)

  // Requests fit a signed word. An ATM settles before it serves the user online again; cut
  // off, it pays out no more than it has left; and it returns only a figure that it was sent.
  predicate Allowed(w: World, step: Step)
  {
    match step
    case Online(_, userID, hashedPin, amount) =>
      amount < 0x8000_0000
      && var line := Find(w.rows, userID, hashedPin);
         line.Some? && line.value < |w.accounts| ==> w.accounts[line.value].offline == 0
    case Offline(line, amount) =>
      line < |w.accounts| && w.accounts[line].known && amount <= w.accounts[line].cached
    case Return(userID, hashedPin) =>
      var line := Find(w.rows, userID, hashedPin);
      line.Some? && line.value < |w.accounts| ==>
        w.accounts[line.value].known && 0 <= w.accounts[line.value].cached < 0x8000_0000
  }

  function After(w: World, step: Step): World
    requires |w.rows| == |w.accounts| && Allowed(w, step)
  {
    match step
    case Online(pay, userID, hashedPin, amount) =>
      var (reply, rows) := Served(w.rows, pay, userID, hashedPin, amount);
      var line := Find(w.rows, userID, hashedPin);
      if line.None? || reply.Administrator? then w
      else
        var a := w.accounts[line.value];
        var paid := if reply.Paid? && pay then amount else 0;
        World(rows, w.accounts[line.value := Account(true, reply.figure, 0, a.dispensed + paid)])
    case Offline(line, amount) =>
      var a := w.accounts[line];
      w.(accounts := w.accounts[line := Account(true, a.cached - amount, a.offline + amount, a.dispensed + amount)])
    case Return(userID, hashedPin) =>
      var line := Find(w.rows, userID, hashedPin);
      if line.None? || w.rows[line.value].admin == 1 then w
      else
        var (reply, rows) := Reconciled(w.rows, userID, hashedPin, w.accounts[line.value].cached);
        World(rows, w.accounts[line.value := Account(true, reply.figure, 0, w.accounts[line.value].dispensed)])
  }

  // The books balance: a balance is the start less all cash paid out but for what the bank
  // has yet to hear of; it covers that; and the figure left is the figure for the balance
  // less what was paid out of it.
  predicate RowBalances(start: Row, row: Row, a: Account)
  {
    && row == start.(balance := row.balance)
    && row.balance - a.offline == start.balance - a.dispensed
    && row.balance >= 0
    && (if a.known then a.offline + a.cached == Figure(row.balance) && a.cached >= 0 else a.offline == 0)
  }

  predicate Balances(start: seq<Row>, w: World)
  {
    && |w.rows| == |w.accounts| == |start|
    && forall i :: 0 <= i < |start| ==> RowBalances(start[i], w.rows[i], w.accounts[i])
  }

  predicate Runs(w: World, steps: seq<Step>)
    requires |w.rows| == |w.accounts|
    decreases |steps|
  {
    steps == [] || (Allowed(w, steps[0]) && |After(w, steps[0]).rows| == |After(w, steps[0]).accounts|
                    && Runs(After(w, steps[0]), steps[1..]))
  }

  function Final(w: World, steps: seq<Step>): World
    requires |w.rows| == |w.accounts| && Runs(w, steps)
    decreases |steps|
  {
    if steps == [] then w else Final(After(w, steps[0]), steps[1..])
  }

  lemma StepBalances(start: seq<Row>, w: World, step: Step)
    requires Balances(start, w) && Allowed(w, step)
    ensures Balances(start, After(w, step))
  {
    hide Find;
    match step
    case Online(pay, userID, hashedPin, amount) =>
      var line := Find(w.rows, userID, hashedPin);
      if line.Some? {
        assert RowBalances(start[line.value], w.rows[line.value], w.accounts[line.value]);
        var bal := w.rows[line.value].balance;
        CutExact(bal, 0, Figure(bal));
        SufficientExact(bal, amount);
        if Sufficient(bal, amount) {
          FigureCovers(bal, amount);
          CutExact(bal - amount, 0, Figure(bal - amount));
        }
      }
    case Offline(line, amount) =>
      assert RowBalances(start[line], w.rows[line], w.accounts[line]);
    case Return(userID, hashedPin) =>
      var line := Find(w.rows, userID, hashedPin);
      if line.Some? {
        var bal, a := w.rows[line.value].balance, w.accounts[line.value];
        assert RowBalances(start[line.value], w.rows[line.value], a);
        CutExact(bal, a.cached, a.offline);
        FigureCovers(bal, a.offline);
        CutExact(bal - a.offline, 0, Figure(bal - a.offline));
      }
  }

  // Over any run, each account ends at its start less all cash paid out, but for what has
  // not been settled; nothing goes negative, and nobody else's row changes.
  lemma {:induction false} Conservation(start: seq<Row>, w: World, steps: seq<Step>)
    requires Balances(start, w) && Runs(w, steps)
    ensures Balances(start, Final(w, steps))
    decreases |steps|
  {
    hide After, Allowed, RowBalances;
    if steps != [] {
      StepBalances(start, w, steps[0]);
      Conservation(start, After(w, steps[0]), steps[1..]);
    }
  }

  // The bank opens with no figure at any ATM.
  function Opened(rows: seq<Row>): World
  {
    World(rows, seq(|rows|, i => UNTOUCHED))
  }

  // The row with its balance less all cash paid out, but for what has not been settled.
  function Settled(start: Row, a: Account): Row
  {
    start.(balance := start.balance - a.dispensed + a.offline)
  }

  // From opening on, every balance is its start less all cash paid out for it, but for what
  // the bank has yet to hear of; it covers that; and the rest of each row is as it was.
  lemma ConservedFromOpening(rows: seq<Row>, steps: seq<Step>)
    requires (forall i :: 0 <= i < |rows| ==> rows[i].balance >= 0) && Runs(Opened(rows), steps)
    ensures var end := Final(Opened(rows), steps);
            && |end.rows| == |end.accounts| == |rows|
            && forall i {:trigger end.rows[i]} :: 0 <= i < |rows| ==>
                 && end.rows[i] == Settled(rows[i], end.accounts[i])
                 && 0 <= end.accounts[i].offline <= end.rows[i].balance
  {
    hide Runs, Final;
    var w := Opened(rows);
    forall i | 0 <= i < |rows|
      ensures RowBalances(rows[i], w.rows[i], w.accounts[i])
    {
      assert rows[i].(balance := rows[i].balance) == rows[i];
    }
    Conservation(rows, w, steps);
    var end := Final(w, steps);
    forall i | 0 <= i < |rows|
      ensures end.rows[i] == Settled(rows[i], end.accounts[i]) && 0 <= end.accounts[i].offline <= end.rows[i].balance
    {
      assert RowBalances(rows[i], end.rows[i], end.accounts[i]);
    }
  }
}
