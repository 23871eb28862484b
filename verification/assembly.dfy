/** What one call of `CO2Monitor.Read` (co2monitor.go) computes, stated on
    values: frames are decrypted one by one, tag byte 0 says whether a frame
    carries a CO2 concentration (0x50) or a temperature (0x42), and the call
    ends successfully at the first frame at which both kinds have been seen
    during this call. */
module Assembly {
  import opened Cipher

  const TagCO2: bv8 := 0x50
  const TagTemp: bv8 := 0x42

  datatype Kind = CO2 | Temp | Other

  /** The kind of a decrypted frame, read off its tag byte. */
  function KindOf(plain: Bytes8): (k: Kind)
    ensures k == CO2 <==> plain[0] == TagCO2
    ensures k == Temp <==> plain[0] == TagTemp
  {
    if plain[0] == TagCO2 then CO2
    else if plain[0] == TagTemp then Temp
    else Other
  }

  /** `uint(hi)<<8 | uint(lo)`: the big-endian 16-bit value of two bytes. */
  function Word(hi: bv8, lo: bv8): (v: nat)
    ensures v == hi as nat * 256 + lo as nat
    ensures v < 65536
  {
    ((hi as bv16 << 8) | lo as bv16) as nat
  }

  /** The value a data frame carries, in bytes 1 and 2. */
  function Value(plain: Bytes8): (v: nat)
    ensures v == plain[1] as nat * 256 + plain[2] as nat
    ensures v < 65536
  {
    Word(plain[1], plain[2])
  }

  /** The temperature a raw value stands for: sixteenths of a kelvin. */
  function Kelvin(raw: nat): (t: real)
    ensures 0.0 <= t && t * 16.0 == raw as real
  {
    raw as real / 16.0
  }

  /** The two fields of a `Reading`. */
  datatype Fields = Fields(temperatureKelvin: real, co2PPM: int)

  /** What one decrypted frame does to the fields: a CO2 frame overwrites the
      concentration, a temperature frame the temperature, any other frame
      nothing. */
  function Apply(plain: Bytes8, acc: Fields): (r: Fields)
  {
    match KindOf(plain)
    case CO2 => acc.(co2PPM := Value(plain))
    case Temp => acc.(temperatureKelvin := Kelvin(Value(plain)))
    case Other => acc
  }

  /** One attempt to read a report from the device: a full 8-byte frame or an
      error. */
  datatype DeviceRead = Data(frame: Bytes8) | ReadFailed

  /** A device read after decryption: a plaintext frame, or the error. */
  datatype Event = Frame(plain: Bytes8) | Failed

  /** Every frame the device delivers is decrypted with the session key. */
  function DecodeOne(key: Bytes8, read: DeviceRead): (e: Event)
    ensures e.Failed? <==> read.ReadFailed?
    ensures read.Data? ==> e.plain == Decrypt(key, read.frame)
  {
    match read
    case Data(frame) => Frame(Decrypt(key, frame))
    case ReadFailed => Failed
  }

  function Decode(key: Bytes8, inputs: seq<DeviceRead>): (events: seq<Event>)
    ensures |events| == |inputs|
  {
    if inputs == [] then [] else [DecodeOne(key, inputs[0])] + Decode(key, inputs[1..])
  }

  /** How a call ends. `Blocked` stands for a device that sends nothing more:
      the driver would wait in the device read for ever. */
  datatype Outcome = Complete | CouldNotReadFromDevice | Blocked

  /** The outcome, the number of device reads made, and the fields after the
      call. */
  datatype PassResult = PassResult(outcome: Outcome, consumed: nat, reading: Fields)

  /** A call that has already made i reads, in which a CO2 frame has been seen
      iff `haveCO2` and a temperature frame iff `haveTemp`. */
  function Pass(events: seq<Event>, i: nat, haveCO2: bool, haveTemp: bool, acc: Fields): (r: PassResult)
    requires i <= |events|
    ensures i <= r.consumed <= |events|
    ensures r.outcome == Blocked ==> r.consumed == |events|
    ensures r.outcome != Blocked ==> i < r.consumed
    decreases |events| - i
  {
    if i == |events| then PassResult(Blocked, i, acc)
    else match events[i]
      case Failed => PassResult(CouldNotReadFromDevice, i + 1, acc)
      case Frame(plain) =>
        var kind := KindOf(plain);
        var hc := haveCO2 || kind == CO2;
        var ht := haveTemp || kind == Temp;
        if kind != Other && hc && ht then PassResult(Complete, i + 1, Apply(plain, acc))
        else Pass(events, i + 1, hc, ht, Apply(plain, acc))
  }

  /** A whole call: the device's reads are decrypted, nothing has been seen
      yet, and the reading is as the caller left it. */
  function ReadCall(key: Bytes8, inputs: seq<DeviceRead>, acc: Fields): (r: PassResult)
    ensures r.consumed <= |inputs|
    ensures r.outcome == Blocked ==> r.consumed == |inputs|
    ensures r.outcome != Blocked ==> 1 <= r.consumed
  {
    Pass(Decode(key, inputs), 0, false, false, acc)
  }

  // The declarative side: what the first n reads of a call contain.

  /** Read number j delivered a frame of kind k. */
  predicate IsKind(events: seq<Event>, j: nat, k: Kind)
    requires j < |events|
  {
    events[j].Frame? && KindOf(events[j].plain) == k
  }

  predicate Seen(events: seq<Event>, n: nat, k: Kind)
    requires n <= |events|
  {
    exists j :: 0 <= j < n && IsKind(events, j, k)
  }

  predicate Both(events: seq<Event>, n: nat)
    requires n <= |events|
  {
    Seen(events, n, CO2) && Seen(events, n, Temp)
  }

  predicate AllFrames(events: seq<Event>, n: nat)
    requires n <= |events|
  {
    forall j :: 0 <= j < n ==> events[j].Frame?
  }

  /** The fields after applying the frames among the first n reads in order. */
  function Replay(events: seq<Event>, n: nat, acc: Fields): (f: Fields)
    requires n <= |events|
  {
    if n == 0 then acc
    else match events[n - 1]
      case Failed => Replay(events, n - 1, acc)
      case Frame(plain) => Apply(plain, Replay(events, n - 1, acc))
  }

  /** The index of the last frame of kind k among the first n reads, or -1. */
  function LastOf(events: seq<Event>, n: nat, k: Kind): (j: int)
    requires n <= |events|
    ensures -1 <= j < n
    ensures j >= 0 ==> IsKind(events, j, k)
    ensures forall m :: j < m < n ==> !IsKind(events, m, k)
  {
    if n == 0 then -1
    else if IsKind(events, n - 1, k) then n - 1
    else LastOf(events, n - 1, k)
  }

  lemma SeenIffLast(events: seq<Event>, n: nat, k: Kind)
    requires n <= |events|
    ensures Seen(events, n, k) <==> LastOf(events, n, k) >= 0
  {
    if Seen(events, n, k) {
      var w :| 0 <= w < n && IsKind(events, w, k);
    }
  }

  lemma SeenStep(events: seq<Event>, n: nat, k: Kind)
    requires n < |events|
    ensures Seen(events, n + 1, k) <==> Seen(events, n, k) || IsKind(events, n, k)
  {
    if Seen(events, n + 1, k) && !IsKind(events, n, k) {
      var w :| 0 <= w < n + 1 && IsKind(events, w, k);
      assert w < n;
    }
  }

  lemma SeenMonotone(events: seq<Event>, m: nat, n: nat, k: Kind)
    requires m <= n <= |events|
    requires Seen(events, m, k)
    ensures Seen(events, n, k)
  {
    var w :| 0 <= w < m && IsKind(events, w, k);
    assert 0 <= w < n && IsKind(events, w, k);
  }

  /** Each field of a replayed reading comes from the last frame of its kind,
      or keeps its old value when there was none. */
  lemma {:induction false} ReplayFields(events: seq<Event>, n: nat, acc: Fields)
    requires n <= |events|
    ensures var f := Replay(events, n, acc);
      var c := LastOf(events, n, CO2);
      var t := LastOf(events, n, Temp);
      && f.co2PPM == (if c >= 0 then Value(events[c].plain) else acc.co2PPM)
      && f.temperatureKelvin == (if t >= 0 then Kelvin(Value(events[t].plain)) else acc.temperatureKelvin)
  {
    if n > 0 {
      ReplayFields(events, n - 1, acc);
    }
  }

  /** The loop invariant of a call, and everything it leads to: the call
      stops at the first read that makes both kinds seen, at the first failed
      read, or when the device has nothing more to send; and the fields are
      those the frames read so far leave behind. */
  lemma {:induction false} PassMeaning(events: seq<Event>, i: nat, haveCO2: bool, haveTemp: bool, acc: Fields)
    requires i <= |events|
    requires AllFrames(events, i)
    requires haveCO2 == Seen(events, i, CO2) && haveTemp == Seen(events, i, Temp)
    requires !(haveCO2 && haveTemp)
    ensures var r := Pass(events, i, haveCO2, haveTemp, Replay(events, i, acc));
      && r.reading == Replay(events, r.consumed, acc)
      && (r.outcome == Complete ==>
            AllFrames(events, r.consumed) && Both(events, r.consumed) && !Both(events, r.consumed - 1))
      && (r.outcome == CouldNotReadFromDevice ==>
            AllFrames(events, r.consumed - 1) && events[r.consumed - 1] == Failed && !Both(events, r.consumed - 1))
      && (r.outcome == Blocked ==>
            AllFrames(events, |events|) && !Both(events, |events|))
    decreases |events| - i
  {
    if i < |events| && events[i].Frame? {
      var kind := KindOf(events[i].plain);
      var hc := haveCO2 || kind == CO2;
      var ht := haveTemp || kind == Temp;
      PassFrameStep(events, i, haveCO2, haveTemp, acc, Replay(events, i, acc));
      if !(kind != Other && hc && ht) {
        PassMeaning(events, i + 1, hc, ht, acc);
      }
    }
  }

  /** One frame read in the middle of a call: what the call does next, and
      how what has been seen and the replayed fields move on. */
  lemma PassFrameStep(events: seq<Event>, i: nat, haveCO2: bool, haveTemp: bool, acc: Fields, cur: Fields)
    requires i < |events| && events[i].Frame?
    requires haveCO2 == Seen(events, i, CO2) && haveTemp == Seen(events, i, Temp)
    requires AllFrames(events, i) && cur == Replay(events, i, acc)
    ensures var plain := events[i].plain;
      var kind := KindOf(plain);
      var hc := haveCO2 || kind == CO2;
      var ht := haveTemp || kind == Temp;
      && hc == Seen(events, i + 1, CO2) && ht == Seen(events, i + 1, Temp)
      && AllFrames(events, i + 1)
      && Apply(plain, cur) == Replay(events, i + 1, acc)
      && Pass(events, i, haveCO2, haveTemp, cur)
         == if kind != Other && hc && ht then PassResult(Complete, i + 1, Apply(plain, cur))
            else Pass(events, i + 1, hc, ht, Apply(plain, cur))
  {
    SeenStep(events, i, CO2);
    SeenStep(events, i, Temp);
  }

  /** Read i decodes to the decrypted frame, or to the error. */
  lemma {:induction false} DecodeAt(key: Bytes8, inputs: seq<DeviceRead>, i: nat)
    requires i < |inputs|
    ensures inputs[i].Data? ==> Decode(key, inputs)[i] == Frame(Decrypt(key, inputs[i].frame))
    ensures inputs[i].ReadFailed? ==> Decode(key, inputs)[i] == Failed
  {
    if i > 0 {
      DecodeAt(key, inputs[1..], i - 1);
    }
  }

  /** Everything the driver's loop keeps true after i reads, with its latch
      for "a CO2 frame was seen" and its latch for "a temperature frame was
      seen": nothing but frames so far, not both kinds yet, the fields those
      frames leave behind, and the rest of the call still heading for
      `target`. */
  ghost predicate Invariant(events: seq<Event>, i: nat, haveCO2: bool, haveTemp: bool, snap: Fields, acc: Fields, target: PassResult)
  {
    && i <= |events|
    && haveCO2 == Seen(events, i, CO2) && haveTemp == Seen(events, i, Temp)
    && !(haveCO2 && haveTemp)
    && AllFrames(events, i)
    && snap == Replay(events, i, acc)
    && Pass(events, i, haveCO2, haveTemp, snap) == target
  }

  /** The invariant holds before the first read of a call. */
  lemma InvariantStart(key: Bytes8, inputs: seq<DeviceRead>, acc: Fields)
    ensures Invariant(Decode(key, inputs), 0, false, false, acc, acc, ReadCall(key, inputs, acc))
  {
    var events := Decode(key, inputs);
    assert !Seen(events, 0, CO2) && !Seen(events, 0, Temp);
  }

  /** Where the call ends without a frame: no more reads, or a failed one. */
  lemma InvariantEnd(events: seq<Event>, i: nat, haveCO2: bool, haveTemp: bool, snap: Fields, acc: Fields, target: PassResult)
    requires Invariant(events, i, haveCO2, haveTemp, snap, acc, target)
    ensures i == |events| ==> target == PassResult(Blocked, i, snap)
    ensures i < |events| && events[i].Failed? ==> target == PassResult(CouldNotReadFromDevice, i + 1, snap)
  {
  }

  /** What a whole call returns. */
  lemma ReadCallMeaning(key: Bytes8, inputs: seq<DeviceRead>, acc: Fields)
    ensures var events := Decode(key, inputs);
      var r := ReadCall(key, inputs, acc);
      && |events| == |inputs|
      && r.reading == Replay(events, r.consumed, acc)
      && (r.outcome == Complete ==>
            1 <= r.consumed && AllFrames(events, r.consumed)
            && Both(events, r.consumed) && !Both(events, r.consumed - 1))
      && (r.outcome == CouldNotReadFromDevice ==>
            1 <= r.consumed && AllFrames(events, r.consumed - 1)
            && events[r.consumed - 1] == Failed && !Both(events, r.consumed - 1))
      && (r.outcome == Blocked ==>
            r.consumed == |events| && AllFrames(events, |events|) && !Both(events, |events|))
  {
    var events := Decode(key, inputs);
    assert !Seen(events, 0, CO2) && !Seen(events, 0, Temp);
    PassMeaning(events, 0, false, false, acc);
  }

  /** A call succeeds exactly when some run of successful reads shows both
      kinds: repeats of one kind never end it, and it never misses the moment
      both have been seen. */
  lemma CompleteIffBoth(key: Bytes8, inputs: seq<DeviceRead>, acc: Fields)
    ensures var events := Decode(key, inputs);
      (ReadCall(key, inputs, acc).outcome == Complete)
        <==> exists n :: 0 <= n <= |events| && AllFrames(events, n) && Both(events, n)
  {
    var events := Decode(key, inputs);
    var r := ReadCall(key, inputs, acc);
    ReadCallMeaning(key, inputs, acc);
    if r.outcome == Complete {
      assert 0 <= r.consumed <= |events| && AllFrames(events, r.consumed) && Both(events, r.consumed);
    } else if n :| 0 <= n <= |events| && AllFrames(events, n) && Both(events, n) {
      var m := if r.outcome == Blocked then |events| else r.consumed - 1;
      assert n <= m;
      SeenMonotone(events, n, m, CO2);
      SeenMonotone(events, n, m, Temp);
    }
  }

  /** The fields a call leaves behind, whatever its outcome: each comes from
      the last frame of its kind read during the call, or is as it was. A
      failed read therefore keeps what earlier frames of the call wrote. */
  lemma ReadCallFields(key: Bytes8, inputs: seq<DeviceRead>, acc: Fields)
    ensures var events := Decode(key, inputs);
      var r := ReadCall(key, inputs, acc);
      var c := LastOf(events, r.consumed, CO2);
      var t := LastOf(events, r.consumed, Temp);
      && r.reading.co2PPM == (if c >= 0 then Value(events[c].plain) else acc.co2PPM)
      && r.reading.temperatureKelvin == (if t >= 0 then Kelvin(Value(events[t].plain)) else acc.temperatureKelvin)
  {
    var r := ReadCall(key, inputs, acc);
    ReadCallMeaning(key, inputs, acc);
    ReplayFields(Decode(key, inputs), r.consumed, acc);
  }

  /** A successful call overwrites both fields, with the values of the last
      CO2 frame and the last temperature frame it read, each decrypted with
      the session key; the concentration is a 16-bit value. */
  lemma CompleteOverwritesBoth(key: Bytes8, inputs: seq<DeviceRead>, acc: Fields)
    requires ReadCall(key, inputs, acc).outcome == Complete
    ensures var events := Decode(key, inputs);
      var r := ReadCall(key, inputs, acc);
      var c := LastOf(events, r.consumed, CO2);
      var t := LastOf(events, r.consumed, Temp);
      && 0 <= c < r.consumed && 0 <= t < r.consumed
      && inputs[c].Data? && inputs[t].Data?
      && r.reading.co2PPM == Value(Decrypt(key, inputs[c].frame))
      && r.reading.temperatureKelvin == Kelvin(Value(Decrypt(key, inputs[t].frame)))
      && 0 <= r.reading.co2PPM < 65536
  {
    var events := Decode(key, inputs);
    var r := ReadCall(key, inputs, acc);
    ReadCallMeaning(key, inputs, acc);
    ReadCallFields(key, inputs, acc);
    SeenIffLast(events, r.consumed, CO2);
    SeenIffLast(events, r.consumed, Temp);
    DecodeAt(key, inputs, LastOf(events, r.consumed, CO2));
    DecodeAt(key, inputs, LastOf(events, r.consumed, Temp));
  }

  /** A frame of neither kind changes neither the fields nor what has been
      seen: the call goes on as if it had not been read. */
  lemma OtherFrameSkipped(events: seq<Event>, i: nat, haveCO2: bool, haveTemp: bool, acc: Fields)
    requires i < |events| && events[i].Frame? && KindOf(events[i].plain) == Other
    ensures Pass(events, i, haveCO2, haveTemp, acc) == Pass(events, i + 1, haveCO2, haveTemp, acc)
  {
  }

  /** Two CO2 frames and then a temperature frame: the second CO2 frame does
      not end the call, the temperature frame does, and the concentration is
      that of the second CO2 frame. */
  lemma RepeatedKindExample(key: Bytes8, a: Bytes8, b: Bytes8, t: Bytes8, acc: Fields)
    requires a[0] == TagCO2 && b[0] == TagCO2 && t[0] == TagTemp
    ensures var r := ReadCall(key, [Data(Encrypt(key, a)), Data(Encrypt(key, b)), Data(Encrypt(key, t))], acc);
      && r.outcome == Complete && r.consumed == 3
      && r.reading == Fields(Kelvin(Value(t)), Value(b))
  {
    var inputs := [Data(Encrypt(key, a)), Data(Encrypt(key, b)), Data(Encrypt(key, t))];
    DecryptEncrypt(key, a);
    DecryptEncrypt(key, b);
    DecryptEncrypt(key, t);
    var events := Decode(key, inputs);
    DecodeAt(key, inputs, 0);
    DecodeAt(key, inputs, 1);
    DecodeAt(key, inputs, 2);
    assert events == [Frame(a), Frame(b), Frame(t)];
    var f1 := acc.(co2PPM := Value(a));
    var f2 := f1.(co2PPM := Value(b));
    assert Pass(events, 2, true, false, f2) == PassResult(Complete, 3, Fields(Kelvin(Value(t)), Value(b)));
    assert Pass(events, 1, true, false, f1) == Pass(events, 2, true, false, f2);
  }

  /** A failed read after a CO2 frame ends the call with an error, and the
      concentration written before it stays written. */
  lemma ErrorKeepsWriteExample(key: Bytes8, a: Bytes8, t: Bytes8, acc: Fields)
    requires a[0] == TagCO2 && t[0] == TagTemp
    ensures var r := ReadCall(key, [Data(Encrypt(key, a)), ReadFailed, Data(Encrypt(key, t))], acc);
      && r.outcome == CouldNotReadFromDevice && r.consumed == 2
      && r.reading == acc.(co2PPM := Value(a))
  {
    var inputs := [Data(Encrypt(key, a)), ReadFailed, Data(Encrypt(key, t))];
    DecryptEncrypt(key, a);
    var events := Decode(key, inputs);
    DecodeAt(key, inputs, 0);
    DecodeAt(key, inputs, 1);
    assert events[0] == Frame(a) && events[1] == Failed;
    var f1 := acc.(co2PPM := Value(a));
    assert Pass(events, 1, true, false, f1) == PassResult(CouldNotReadFromDevice, 2, f1);
  }
}
