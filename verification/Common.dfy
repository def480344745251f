// Shared vocabulary: optional values, for the pointers of the program that may be NULL.
module Common {

  datatype Option<+T> = None | Some(value: T) {
    function GetOr(default: T): T {
      if None? then default else value
    }
  }

  // The C type `int`, 32 bits wide.
  type CInt = x: int | -0x8000_0000 <= x < 0x8000_0000

  // The C types SRM_LONG64 and ULONG64, 64 bits wide
  const TWO_63: int := 0x8000_0000_0000_0000
  type Long64 = x: int | -0x8000_0000_0000_0000 <= x < 0x8000_0000_0000_0000
  type ULong64 = x: int | 0 <= x < 0x1_0000_0000_0000_0000

  // The cast (SRM_LONG64), which wraps around
  function ToLong64(n: ULong64): Long64 {
    if n < TWO_63 then n else n - 2 * TWO_63
  }

  // Its reverse, the conversion to ULONG64
  function ToULong64(n: Long64): ULong64 {
    if n >= 0 then n else n + 2 * TWO_63
  }

  // Conversion of a signed value to the C type `unsigned int`.
  function ToUnsigned(n: int): nat {
    n % 0x1_0000_0000
  }

  lemma Append<T>(s: seq<T>, t: seq<T>, u: seq<T>)
    ensures (s + t) + u == s + (t + u) && s + [] == s
  {
  }
}
