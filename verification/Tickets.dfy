/** Ticket creation and the references tickets get. */
module Tickets {
  import opened Common
  import opened Decimal

  datatype Ticket = Ticket(ticketRef: string, departmentId: nat, creatorId: UserId, subject: string)

  datatype TicketError = DepartmentNotFound

  /** The reference of the n-th ticket. */
  function Reference(n: nat): string {
    "TKT-" + PadStart(Render(n), 3)
  }

  /** References are injective, past three digits too. */
  lemma ReferenceInjective(m: nat, n: nat)
    ensures Reference(m) == Reference(n) <==> m == n
  {
    assert Reference(m)[4..] == PadStart(Render(m), 3);
    assert Reference(n)[4..] == PadStart(Render(n), 3);
    PaddedRoundTrip(m, 3);
    PaddedRoundTrip(n, 3);
  }

  /** A reference is the prefix and the number in decimal, with zeros in front up to three digits. */
  lemma ReferenceReads(n: nat)
    ensures var r := Reference(n);
            && |r| >= 7 && r[..4] == "TKT-" && (forall c | c in r[4..] :: '0' <= c <= '9') && Parse(r[4..]) == n
            && (|r| > 7 ==> r[4] != '0') && (|r| == 7 <==> n < 1000)
  {
    var r, digits := Reference(n), Render(n);
    assert r[4..] == PadStart(digits, 3);
    PadStartShape(digits, 3);
    PaddedRoundTrip(n, 3);
    PaddedDigits(n, 3);
    ThreeDigits(n);
    if |digits| > 3 {
      RenderDigits(n);
      assert r[4..] == digits && r[4] == digits[0];
    }
  }

  /** The tickets are numbered from one in the order they were created. */
  ghost predicate Numbered(tickets: seq<Ticket>) {
    forall i | 0 <= i < |tickets| :: tickets[i].ticketRef == Reference(i + 1)
  }

  /** So no two tickets share a reference, as the unique column demands. */
  lemma NumberedIsDistinct(tickets: seq<Ticket>)
    requires Numbered(tickets)
    ensures forall i, j | 0 <= i < j < |tickets| :: tickets[i].ticketRef != tickets[j].ticketRef
  {
    forall i, j | 0 <= i < j < |tickets| ensures tickets[i].ticketRef != tickets[j].ticketRef {
      ReferenceInjective(i + 1, j + 1);
    }
  }

  class TicketingService {
    var tickets: seq<Ticket>

    constructor ()
      ensures tickets == [] && Numbered(tickets)
    {
      tickets := [];
    }

    method GenerateTicketRef() returns (ticketRef: string)
      ensures ticketRef == Reference(|tickets| + 1)
    {
      var nextId := |tickets| + 1;
      ticketRef := "TKT-" + PadStart(Render(nextId), 3);
    }

    /** `departmentFound` is what the department table answered. */
    method CreateTicket(creatorId: UserId, departmentId: nat, departmentFound: bool, subject: string)
      returns (r: Result<Ticket, TicketError>)
      requires Numbered(tickets)
      modifies this
      ensures Numbered(tickets)
      ensures !departmentFound ==> r == Failure(DepartmentNotFound) && tickets == old(tickets)
      ensures departmentFound ==>
                && r == Success(Ticket(Reference(|old(tickets)| + 1), departmentId, creatorId, subject))
                && tickets == old(tickets) + [r.value]
                && forall t | t in old(tickets) :: t.ticketRef != r.value.ticketRef
    {
      if !departmentFound {
        return Failure(DepartmentNotFound);
      }
      var ticketRef := GenerateTicketRef();
      var ticket := Ticket(ticketRef, departmentId, creatorId, subject);
      tickets := tickets + [ticket];
      NumberedIsDistinct(tickets);
      forall t | t in old(tickets) ensures t.ticketRef != ticketRef {
        var i :| 0 <= i < |old(tickets)| && old(tickets)[i] == t;
        assert tickets[i] == t && tickets[|old(tickets)|] == ticket;
      }
      r := Success(ticket);
    }
  }
}
