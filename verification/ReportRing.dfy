/** The queue of input reports between the USB callback and the reader (macos-demo/pq1-demo.c): a ring of 128 slots. */
module ReportRing {
  import opened Bytes

  const REPORT: nat := 64
  const FIFO: nat := 128

  /** A report as a slot keeps it: cut to 64 bytes, or filled up with zeros. */
  function Slot(report: Bytes): (s: Bytes)
    ensures |s| == 64 && forall i :: 0 <= i < 64 ==> s[i] == if i < |report| then report[i] else 0
  {
    if |report| >= REPORT then report[..REPORT] else report + Zeros(REPORT - |report|)
  }

  /** The last 128 of what arrived. */
  function Newest(q: seq<Bytes>): (n: seq<Bytes>)
    ensures |n| == (if |q| < 128 then |q| else 128) && n == q[|q| - |n|..]
  {
    if |q| <= FIFO then q else q[|q| - FIFO..]
  }

  /** Reports arriving one after another. */
  function Arrive(q: seq<Bytes>, reports: seq<Bytes>): seq<Bytes>
    decreases |reports|
  {
    if reports == [] then q else Arrive(Newest(q + [Slot(reports[0])]), reports[1..])
  }

  function Slots(reports: seq<Bytes>): (s: seq<Bytes>)
    ensures |s| == |reports| && forall k :: 0 <= k < |s| ==> s[k] == Slot(reports[k])
  {
    seq(|reports|, k requires 0 <= k < |reports| => Slot(reports[k]))
  }

  lemma NewestOfMore(all: seq<Bytes>, more: seq<Bytes>)
    ensures Newest(Newest(all) + more) == Newest(all + more)
  {
    if |all| > FIFO {
      assert Newest(all) == all[|all| - FIFO..];
      assert all[|all| - FIFO..] + more == (all + more)[|all| - FIFO..];
      LastOf(all + more, |all| - FIFO);
    } else {
      assert Newest(all) == all;
    }
  }

  lemma LastOf(q: seq<Bytes>, n: nat)
    requires n <= |q| && |q| - n >= FIFO
    ensures Newest(q[n..]) == Newest(q)
  {
    assert q[n..][|q| - n - FIFO..] == q[|q| - FIFO..];
  }

  lemma SlotsNext(q: seq<Bytes>, reports: seq<Bytes>)
    requires reports != []
    ensures q + Slots(reports) == q + [Slot(reports[0])] + Slots(reports[1..])
  {
  }

  /** Dropping the oldest one at a time leaves the last 128 of all, so nothing is lost while no more wait. */
  lemma {:induction false} LastOnesStay(q: seq<Bytes>, reports: seq<Bytes>)
    requires |q| <= FIFO
    ensures Arrive(q, reports) == Newest(q + Slots(reports))
    decreases |reports|
  {
    if reports == [] {
      assert q + Slots(reports) == q;
    } else {
      var all := q + [Slot(reports[0])];
      SlotsNext(q, reports);
      LastOnesStay(Newest(all), reports[1..]);
      NewestOfMore(all, Slots(reports[1..]));
    }
  }

  function Wrap(i: nat): (w: nat)
    requires i < 2 * FIFO
    ensures w < FIFO && w == i % FIFO
  {
    if i < FIFO then i else i - FIFO
  }

  class Ring {
    const fifo: array2<Byte>
    var head: nat
    var count: nat
    ghost var Waiting: seq<Bytes>

    ghost predicate Valid()
      reads this, fifo
    {
      && fifo.Length0 == FIFO && fifo.Length1 == REPORT
      && head < FIFO && count == |Waiting| <= FIFO
      && (forall k :: 0 <= k < count ==> |Waiting[k]| == REPORT)
      && (forall k, j :: 0 <= k < count && 0 <= j < REPORT ==> fifo[Wrap(head + k), j] == Waiting[k][j])
    }

    constructor ()
      ensures Valid() && fresh(fifo) && Waiting == []
    {
      fifo := new Byte[FIFO, REPORT]((_, _) => 0);
      head, count, Waiting := 0, 0, [];
    }

    /** memset and memcpy of one slot. */
    method Fill(slot: nat, report: Bytes)
      requires fifo.Length0 == FIFO && fifo.Length1 == REPORT && slot < FIFO
      modifies fifo
      ensures forall j :: 0 <= j < REPORT ==> fifo[slot, j] == Slot(report)[j]
      ensures forall i, j :: 0 <= i < FIFO && 0 <= j < REPORT && i != slot ==> fifo[i, j] == old(fifo[i, j])
    {
      for j := 0 to REPORT
        invariant forall k :: 0 <= k < j ==> fifo[slot, k] == Slot(report)[k]
        invariant forall i, k :: 0 <= i < FIFO && 0 <= k < REPORT && i != slot ==> fifo[i, k] == old(fifo[i, k])
      {
        fifo[slot, j] := if j < |report| then report[j] else 0;
      }
    }

    method DropOldest()
      requires Valid() && count > 0
      modifies this
      ensures Valid() && count == old(count) - 1 && Waiting == old(Waiting)[1..]
    {
      head := Wrap(head + 1);
      count := count - 1;
      Waiting := Waiting[1..];
    }

    /** `on_report`: an empty or failed report is ignored. */
    method OnReport(failed: bool, report: Bytes)
      requires Valid()
      modifies this, fifo
      ensures Valid()
      ensures Waiting == if failed || report == [] then old(Waiting) else Newest(old(Waiting) + [Slot(report)])
    {
      if failed || |report| == 0 {
        return;
      }
      if count == FIFO {
        DropOldest();
        assert Newest(old(Waiting) + [Slot(report)]) == Waiting + [Slot(report)];
      }
      Append(report);
    }

    method Append(report: Bytes)
      requires Valid() && count < FIFO
      modifies this, fifo
      ensures Valid() && Waiting == old(Waiting) + [Slot(report)]
    {
      Fill(Wrap(head + count), report);
      count := count + 1;
      Waiting := Waiting + [Slot(report)];
    }

    /** `hid_read` when something waits: the oldest report. */
    method Read(frame: array<Byte>) returns (got: bool)
      requires Valid() && frame.Length == REPORT
      modifies this, frame
      ensures Valid() && got == (old(Waiting) != [])
      ensures got ==> frame[..] == old(Waiting)[0] && Waiting == old(Waiting)[1..]
      ensures !got ==> Waiting == old(Waiting) && frame[..] == old(frame[..])
    {
      if count == 0 {
        return false;
      }
      for j := 0 to REPORT
        invariant Valid() && Waiting == old(Waiting) && count > 0 && head == old(head)
        invariant forall k :: 0 <= k < j ==> frame[k] == Waiting[0][k]
      {
        frame[j] := fifo[head, j];
      }
      DropOldest();
      got := true;
    }
  }
}
