/** 32-bit serial number arithmetic, as section 3.2 of RFC 1982 and lib/isc/serial.c have it. */
module Serials {
  const TWO_31 := 0x8000_0000
  const TWO_32 := 0x1_0000_0000

  type Serial = x: int | 0 <= x < TWO_32

  /** `isc_serial_gt`: the 32-bit difference, read as signed, is positive. */
  predicate SerialGt(a: Serial, b: Serial) { 0 < (a - b) % TWO_32 < TWO_31 }

  /** `isc_serial_lt`: false both ways for serials half the circle apart. */
  predicate SerialLt(a: Serial, b: Serial) { TWO_31 < (a - b) % TWO_32 }

  predicate SerialGe(a: Serial, b: Serial) { a == b || SerialGt(a, b) }

  function SerialAdd(a: Serial, n: nat): Serial { (a + n) % TWO_32 }

  function SerialSub(a: Serial, b: Serial): Serial { (a - b) % TWO_32 }

  /** Greater means reached by adding less than half the circle, and less is the converse. */
  lemma SerialOrder(a: Serial, b: Serial)
    ensures SerialGt(a, b) <==> exists d: nat :: 0 < d < 0x8000_0000 && a == SerialAdd(b, d)
    ensures SerialLt(a, b) <==> SerialGt(b, a)
    ensures a != b ==> (!SerialGt(a, b) && !SerialGt(b, a) <==> (a - b) % 0x1_0000_0000 == 0x8000_0000)
  {
    var d := (a - b) % TWO_32;
    assert a == SerialAdd(b, d);
    forall e: nat | 0 < e < TWO_31 && a == SerialAdd(b, e) ensures e == d {
    }
  }
}
