/** SEL reservations: one shared ID that each reserve advances and each accepted change uses up. */
module SelReservation {
  import opened Bytes

  datatype State = State(id: word, valid: bool)

  const INITIAL := State(0xFFFF, false)

  datatype Command =
    | Reserve
    | Add
    | Delete(id: word)
    | Clear(id: word, signed: bool, operation: byte)

  const GET_ERASE_STATUS: byte := 0x00

  /** Commands that change the SEL under a reservation; asking for the erase status does not. */
  predicate Erasing(c: Command) {
    c.Delete? || (c.Clear? && c.signed && c.operation != GET_ERASE_STATUS)
  }

  predicate Accepted(s: State, c: Command) { Erasing(c) && s.valid && s.id == c.id }

  function NextId(id: word): (r: word) {
    var next := (id as int + 1) % 0x1_0000;
    if next == 0 then 1 else next
  }

  function Step(s: State, c: Command): (r: State) {
    if c.Reserve? then State(NextId(s.id), true)
    else if c.Add? || Accepted(s, c) then s.(valid := false)
    else s
  }

  function Run(cs: seq<Command>): (r: State) {
    if cs == [] then INITIAL else Step(Run(cs[..|cs| - 1]), cs[|cs| - 1])
  }

  // -------- reference notions on command logs --------

  function Reserves(cs: seq<Command>): (r: nat) {
    if cs == [] then 0 else Reserves(cs[..|cs| - 1]) + if cs[|cs| - 1].Reserve? then 1 else 0
  }

  function AcceptedCount(cs: seq<Command>): (r: nat) {
    if cs == [] then 0
    else AcceptedCount(cs[..|cs| - 1]) + if Accepted(Run(cs[..|cs| - 1]), cs[|cs| - 1]) then 1 else 0
  }

  /** The ID that the n-th reserve hands out. */
  function Issued(n: nat): (r: word)
    requires n > 0
  {
    (n - 1) % 0xFFFF + 1
  }

  /** Command `k` ends whatever reservation was held: a newer reserve, an add, or an accepted change. */
  predicate Ends(cs: seq<Command>, k: nat)
    requires k < |cs|
  {
    cs[k].Reserve? || cs[k].Add? || Accepted(Run(cs[..k]), cs[k])
  }

  /** Reserve number `j` of the log is still in force at its end. */
  predicate InForce(cs: seq<Command>, j: nat) {
    j < |cs| && cs[j].Reserve? && forall k | j < k < |cs| :: !Ends(cs, k)
  }

  // -------- results --------

  lemma IssuedAdvances(n: nat)
    requires n > 0
    ensures NextId(Issued(n)) == Issued(n + 1)
  {
    var m := n - 1;
    assert m % 0xFFFF + 1 < 0xFFFF ==> (m + 1) % 0xFFFF == m % 0xFFFF + 1;
    assert m % 0xFFFF == 0xFFFE ==> (m + 1) % 0xFFFF == 0;
  }

  /** The n-th ID issued is ((n - 1) mod 65535) + 1, so zero never is. */
  lemma {:induction false} NthIdIssued(cs: seq<Command>)
    ensures Run(cs).id == if Reserves(cs) == 0 then 0xFFFF else Issued(Reserves(cs))
    ensures Reserves(cs) > 0 ==> Run(cs).id != 0
  {
    if cs != [] {
      var init := cs[..|cs| - 1];
      NthIdIssued(init);
      if cs[|cs| - 1].Reserve? && Reserves(init) > 0 {
        IssuedAdvances(Reserves(init));
      }
    }
  }

  /** Two issues share an ID exactly when they are a multiple of 65535 apart. */
  lemma IdsRepeatEvery65535(m: nat, n: nat)
    requires 0 < m <= n
    ensures Issued(m) == Issued(n) <==> (n - m) % 0xFFFF == 0
  {
    var a, b := m - 1, n - 1;
    var q, r := a / 0xFFFF, b / 0xFFFF;
    assert a == 0xFFFF * q + a % 0xFFFF && b == 0xFFFF * r + b % 0xFFFF;
    assert b - a == 0xFFFF * (r - q) + (b % 0xFFFF - a % 0xFFFF);
  }

  /** Accepted deletes and erasing clears never outnumber the reserves. */
  lemma {:induction false} NeverMoreAcceptedThanReserved(cs: seq<Command>)
    ensures AcceptedCount(cs) + (if Run(cs).valid then 1 else 0) <= Reserves(cs)
  {
    if cs != [] {
      NeverMoreAcceptedThanReserved(cs[..|cs| - 1]);
    }
  }

  lemma EndsOnPrefix(cs: seq<Command>, k: nat)
    requires cs != [] && k < |cs| - 1
    ensures Ends(cs, k) == Ends(cs[..|cs| - 1], k)
  {
    assert cs[..k] == cs[..|cs| - 1][..k];
  }

  lemma {:induction false} ValidMeansInForce(cs: seq<Command>)
    ensures Run(cs).valid <==> exists j :: InForce(cs, j)
  {
    if cs != [] {
      var n := |cs| - 1;
      var init := cs[..n];
      ValidMeansInForce(init);
      forall k: nat | k < n ensures Ends(cs, k) == Ends(init, k) { EndsOnPrefix(cs, k); }
      if cs[n].Reserve? {
        assert InForce(cs, n);
      } else if !Ends(cs, n) {
        if Run(init).valid {
          var j :| InForce(init, j);
          assert InForce(cs, j);
        } else {
          forall j ensures !InForce(cs, j) { assert InForce(cs, j) ==> InForce(init, j); }
        }
      }
    }
  }

  lemma {:induction false} InForceIsLatest(cs: seq<Command>, j: nat)
    requires InForce(cs, j)
    ensures Reserves(cs) == Reserves(cs[..j + 1]) > 0
  {
    var n := |cs| - 1;
    if j < n {
      forall k: nat | k < n ensures Ends(cs, k) == Ends(cs[..n], k) { EndsOnPrefix(cs, k); }
      InForceIsLatest(cs[..n], j);
      assert cs[..n][..j + 1] == cs[..j + 1];
      assert !Ends(cs, n);
    } else {
      assert cs[..j + 1] == cs;
    }
  }

  /** A delete or erasing clear is accepted exactly if a reserve is in force - no add, accepted change or newer
      reserve since - and the caller shows the ID which that reserve handed out. */
  lemma AcceptedExactlyIfInForce(cs: seq<Command>, c: Command)
    requires Erasing(c)
    ensures Accepted(Run(cs), c)
       <==> exists j :: InForce(cs, j) && Reserves(cs[..j + 1]) > 0 && c.id == Issued(Reserves(cs[..j + 1]))
  {
    ValidMeansInForce(cs);
    NthIdIssued(cs);
    forall j | InForce(cs, j) ensures Reserves(cs) == Reserves(cs[..j + 1]) > 0 { InForceIsLatest(cs, j); }
  }

  // -------- the two global variables --------

  class SelReservations {
    var selReservationID: word
    var selReservationValid: bool

    function Abs(): (r: State)
      reads this
    {
      State(selReservationID, selReservationValid)
    }

    constructor ()
      ensures Abs() == INITIAL
    {
      selReservationID, selReservationValid := 0xFFFF, false;
    }

    method ReserveSel() returns (id: word)
      modifies this
      ensures Abs() == Step(old(Abs()), Reserve) && id == selReservationID
    {
      selReservationID := (selReservationID as int + 1) % 0x1_0000;
      if selReservationID == 0 {
        selReservationID := 1;
      }
      selReservationValid := true;
      id := selReservationID;
    }

    predicate CheckSELReservation(id: word)
      reads this
      ensures CheckSELReservation(id) <==> Accepted(Abs(), Delete(id))
    {
      selReservationValid && selReservationID == id
    }

    method CancelSELReservation()
      modifies this
      ensures Abs() == old(Abs()).(valid := false)
    {
      selReservationValid := false;
    }
  }
}
