/** espnowdaemon/device_manager.cpp: devices are named after their position and found by name. */
module DeviceManagers {
  import opened Bytes

  const DIGITS: string := "0123456789"

  /** `std::to_string` of an unsigned number. */
  function Decimal(n: nat): (s: string)
    ensures |s| > 0
  {
    if n < 10 then [DIGITS[n]] else Decimal(n / 10) + [DIGITS[n % 10]]
  }

  lemma {:induction false} DecimalInjective(a: nat, b: nat)
    requires Decimal(a) == Decimal(b)
    ensures a == b
  {
    var s, n := Decimal(a), |Decimal(a)| - 1;
    assert s[n] == DIGITS[a % 10] && s[n] == DIGITS[b % 10];
    if a >= 10 && b >= 10 {
      assert s[..n] == Decimal(a / 10) == Decimal(b / 10);
      DecimalInjective(a / 10, b / 10);
    }
  }

  /** The number a string of digits stands for: ten times the value so far, plus the next digit. */
  function ReadDecimal(s: string): int {
    if s == [] then 0 else ReadDecimal(s[..|s| - 1]) * 10 + (s[|s| - 1] as int - '0' as int)
  }

  /** `s` is `n` in decimal: digits only, with that value, and without a leading zero. */
  predicate Prints(s: string, n: nat) {
    && s != [] && (forall i :: 0 <= i < |s| ==> '0' <= s[i] <= '9')
    && ReadDecimal(s) == n
    && (s[0] == '0' ==> |s| == 1)
  }

  lemma {:induction false} DecimalPrints(n: nat)
    ensures Prints(Decimal(n), n)
  {
    var s := Decimal(n);
    if n >= 10 {
      DecimalPrints(n / 10);
      assert s[..|s| - 1] == Decimal(n / 10);
      LeadingZero(Decimal(n / 10), n / 10);
    } else {
      assert s[..0] == [];
    }
  }

  lemma LeadingZero(s: string, n: nat)
    requires Prints(s, n)
    ensures s[0] == '0' ==> n == 0
  {
    if s[0] == '0' {
      assert s[..|s| - 1] == [];
      assert ReadDecimal(s) == ReadDecimal([]) * 10 + 0;
    }
  }

  /** There is only one such string. */
  lemma {:induction false} PrintsOnlyDecimal(s: string, n: nat)
    requires Prints(s, n)
    ensures s == Decimal(n)
    decreases |s|
  {
    var init, last := s[..|s| - 1], s[|s| - 1] as int - '0' as int;
    assert s[|s| - 1] == DIGITS[last];
    if init == [] {
      assert ReadDecimal(init) == 0 && n == last;
      assert s == [s[0]];
    } else {
      NotNegative(init);
      LeadingDigitCounts(init);
      assert n / 10 == ReadDecimal(init) && n % 10 == last;
      PrintsOnlyDecimal(init, n / 10);
      assert s == init + [s[|s| - 1]];
    }
  }

  lemma {:induction false} NotNegative(s: string)
    requires forall i :: 0 <= i < |s| ==> '0' <= s[i] <= '9'
    ensures ReadDecimal(s) >= 0
  {
    if s != [] {
      NotNegative(s[..|s| - 1]);
    }
  }

  lemma {:induction false} LeadingDigitCounts(s: string)
    requires s != [] && s[0] != '0' && forall i :: 0 <= i < |s| ==> '0' <= s[i] <= '9'
    ensures ReadDecimal(s) > 0
  {
    if |s| > 1 {
      LeadingDigitCounts(s[..|s| - 1]);
    } else {
      assert s[..0] == [];
    }
  }

  const PREFIX: string := "espnow"

  lemma SamePrefix(p: string, a: string, b: string)
    requires p + a == p + b
    ensures a == b
  {
    assert (p + a)[|p|..] == a && (p + b)[|p|..] == b;
  }

  /** The interface index is a 32-bit number. */
  function DeviceId(index: nat): string {
    PREFIX + Decimal(index % TWO_32)
  }

  lemma DeviceIdsDistinct(i: nat, j: nat)
    requires i < TWO_32 && j < TWO_32 && i != j
    ensures DeviceId(i) != DeviceId(j)
  {
    hide Decimal;
    if DeviceId(i) == DeviceId(j) {
      SamePrefix(PREFIX, Decimal(i), Decimal(j));
      DecimalInjective(i, j);
    }
  }

  class Device {
    const id: string
    const file: string

    constructor (id: string, file: string)
      ensures this.id == id && this.file == file
    {
      this.id, this.file := id, file;
    }
  }

  class DeviceManager {
    var devices: seq<Device>

    ghost predicate Valid()
      reads this
    {
      forall k :: 0 <= k < |devices| ==> devices[k].id == DeviceId(k)
    }

    constructor ()
      ensures Valid() && devices == []
    {
      devices := [];
    }

    /** `opens` is whether the device file could be opened; a failed add changes nothing. */
    method AddUartDevice(file: string, opens: bool) returns (added: Option<Device>)
      requires Valid()
      modifies this
      ensures Valid()
      ensures opens == added.Some?
      ensures devices == if opens then old(devices) + [added.value] else old(devices)
      ensures opens ==> fresh(added.value) && added.value.file == file && added.value.id == DeviceId(|old(devices)|)
      ensures opens ==> added.value.id[..6] == "espnow" && Prints(added.value.id[6..], |old(devices)| % 0x1_0000_0000)
    {
      if !opens {
        return None;
      }
      DecimalPrints(|devices| % TWO_32);
      var device := new Device(DeviceId(|devices|), file);
      devices := devices + [device];
      return Some(device);
    }

    /** Looking up a listed device's id returns that very device; any other id, nothing. */
    method GetDeviceById(id: string) returns (found: Option<Device>)
      requires Valid() && |devices| <= TWO_32
      ensures forall k :: 0 <= k < |devices| && devices[k].id == id ==> found == Some(devices[k])
      ensures found.None? <==> forall k :: 0 <= k < |devices| ==> devices[k].id != id
    {
      for i := 0 to |devices|
        invariant forall k :: 0 <= k < i ==> devices[k].id != id
      {
        if devices[i].id == id {
          forall k | i < k < |devices| ensures devices[k].id != id {
            DeviceIdsDistinct(i, k);
          }
          return Some(devices[i]);
        }
      }
      return None;
    }
  }
}
