// Arithmetic on `struct timespec`.
module TimeUtils {

  const NANOS: int := 1_000_000_000

  // The value held by a `struct timespec`.
  datatype TimeVal = TimeVal(sec: int, nsec: int) {
    function Nanos(): int {
      sec * 1_000_000_000 + nsec
    }

    // What `timespec_add` keeps true. The upper bound is included, because the macro carries
    // only when the nanoseconds exceed one second.
    predicate Loose() {
      0 <= nsec <= NANOS
    }

    // timespec_cmp with the operator <
    predicate Less(that: TimeVal) {
      if sec == that.sec then nsec < that.nsec else sec < that.sec
    }
  }

  // The lexicographic comparison is the order of the real values, but for one pair of
  // representations of the same instant.
  lemma LessIsRealOrderUpToCarry(a: TimeVal, b: TimeVal)
    requires a.Loose() && b.Loose()
    ensures a.Less(b) <==>
            a.Nanos() < b.Nanos() || (a.nsec == NANOS && b == TimeVal(a.sec + 1, 0))
    ensures a.Nanos() < b.Nanos() ==> a.Less(b)
    ensures a.Less(b) ==> a.Nanos() <= b.Nanos()
  {
    if a.sec < b.sec {
      assert b.Nanos() - a.Nanos() == (b.sec - a.sec) * 1_000_000_000 + b.nsec - a.nsec;
    } else if b.sec < a.sec {
      assert a.Nanos() - b.Nanos() == (a.sec - b.sec) * 1_000_000_000 + a.nsec - b.nsec;
    }
  }

  lemma SecondsLater(t: TimeVal, seconds: int)
    ensures t.(sec := t.sec + seconds).Nanos() == t.Nanos() + seconds * 1_000_000_000
    ensures TimeVal(0, 0).Nanos() == 0
  {
  }

  class Timespec {
    var tv: TimeVal

    constructor (val: TimeVal)
      ensures tv == val
    {
      tv := val;
    }

    // timespec_add(a, b, this). The result may be one of the operands, or both.
    method Add(a: Timespec, b: Timespec)
      modifies this
      ensures tv.Nanos() == old(a.tv.Nanos() + b.tv.Nanos())
      ensures old(a.tv.Loose() && b.tv.Loose()) ==> tv.Loose()
    {
      tv := tv.(sec := a.tv.sec + b.tv.sec);
      tv := tv.(nsec := a.tv.nsec + b.tv.nsec);
      if tv.nsec > NANOS {
        tv := tv.(sec := tv.sec + 1);
        tv := tv.(nsec := tv.nsec - NANOS);
      }
    }

    // timespec_copy(this, b)
    method Copy(b: Timespec)
      modifies this
      ensures tv == old(b.tv)
    {
      tv := tv.(sec := b.tv.sec);
      tv := tv.(nsec := b.tv.nsec);
    }
  }
}
