/** The driver object of co2monitor.go: the `Reading` record that `Read`
    fills in, and `CO2Monitor`, which owns the session key and the opened
    device. The HID library and the system's random source are not part of
    this model: what they return is passed in. */
module Driver {
  import opened Cipher
  import opened Assembly

  datatype Option<T> = None | Some(value: T)

  /** An opened HID device. */
  datatype Handle = Handle(id: nat)

  /** A device as the HID enumeration lists it. */
  datatype DeviceInfo = DeviceInfo(path: string)

  datatype OpenError =
    | ErrorCouldNotGenerateKey
    | ErrorDidNotFindDevice
    | ErrorCouldNotOpenDevice
    | ErrorCouldNotSendFeatureRequest

  /** The USB ids the driver asks the enumeration for. */
  const VendorID: int := 0x04d9
  const ProductID: int := 0xa052

  /** A measurement: temperature in kelvin and CO2 concentration in ppm. */
  class Reading {
    var temperatureKelvin: real
    var co2PPM: int

    constructor ()
      ensures temperatureKelvin == 0.0 && co2PPM == 0
    {
      temperatureKelvin := 0.0;
      co2PPM := 0;
    }

    function Snapshot(): Fields
      reads this
    {
      Fields(temperatureKelvin, co2PPM)
    }
  }

  class CO2Monitor {
    var key: array<bv8>
    var device: Option<Handle>

    ghost predicate Valid()
      reads this
    {
      key.Length == 8
    }

    /** The zero value of the Go struct: an all-zero key and no device. */
    constructor ()
      ensures Valid() && fresh(key)
      ensures key[..] == [0, 0, 0, 0, 0, 0, 0, 0] && device == None
    {
      key := new bv8[8](_ => 0);
      device := None;
    }

    /** Sets up the monitor in four steps, stopping at the first that fails:
        store a fresh key (`entropy`, None when the random source fails),
        enumerate the devices with the sensor's ids, open the first one, and
        send it the key as a 9-byte feature report whose first byte is 0.
        Returns the error, if any, and the report handed to the device, if
        the last step was reached. */
    method Open(entropy: Option<Bytes8>,
                enumerate: (int, int) -> seq<DeviceInfo>,
                openDevice: DeviceInfo -> Option<Handle>,
                sendFeatureReport: (Handle, seq<bv8>) -> bool)
      returns (err: Option<OpenError>, sent: Option<seq<bv8>>)
      requires Valid()
      modifies this, key
      ensures Valid() && key == old(key)
      ensures entropy.Some? ==> key[..] == entropy.value
      ensures entropy.None? ==> key[..] == old(key[..])
      ensures var found := enumerate(VendorID, ProductID);
        var dev := if |found| > 0 then openDevice(found[0]) else None;
        && (entropy.None? ==> err == Some(ErrorCouldNotGenerateKey))
        && (entropy.Some? && |found| == 0 ==> err == Some(ErrorDidNotFindDevice))
        && (entropy.Some? && |found| > 0 && dev.None? ==> err == Some(ErrorCouldNotOpenDevice))
        && (sent.Some? <==> entropy.Some? && dev.Some?)
        && (sent.Some? ==> sent.value == [0] + entropy.value)
        && (sent.Some? ==> err == (if sendFeatureReport(dev.value, sent.value) then None
                                   else Some(ErrorCouldNotSendFeatureRequest)))
        && device == (if err.None? then dev else old(device))
    {
      sent := None;
      if entropy.None? {
        return Some(ErrorCouldNotGenerateKey), sent;
      }
      forall j | 0 <= j < 8 {
        key[j] := entropy.value[j];
      }
      var devinfos := enumerate(VendorID, ProductID);
      if |devinfos| == 0 {
        return Some(ErrorDidNotFindDevice), sent;
      }
      var dev := openDevice(devinfos[0]);
      if dev.None? {
        return Some(ErrorCouldNotOpenDevice), sent;
      }
      var report := new bv8[9](_ => 0);
      for j := 1 to 9
        invariant Valid() && key == old(key) && key[..] == entropy.value
        invariant device == old(device)
        invariant report[0] == 0
        invariant forall m :: 1 <= m < j ==> report[m] == key[m - 1]
      {
        report[j] := key[j - 1];
      }
      assert report[..] == [0] + key[..];
      sent := Some(report[..]);
      if !sendFeatureReport(dev.value, report[..]) {
        return Some(ErrorCouldNotSendFeatureRequest), sent;
      }
      device := dev;
      err := None;
    }

    /** A successful device read: the frame read number i delivered lands in
        `buf` and is decrypted there with the session key. */
    method Receive(buf: array<bv8>, inputs: seq<DeviceRead>, i: nat)
      requires Valid() && buf.Length == 8 && buf != key
      requires i < |inputs| && inputs[i].Data?
      modifies buf
      ensures Decode(key[..], inputs)[i] == Frame(buf[..])
    {
      var frame := inputs[i].frame;
      forall j | 0 <= j < 8 {
        buf[j] := frame[j];
      }
      assert buf[..] == frame;
      DecryptInPlace(key, buf);
      DecodeAt(key[..], inputs, i);
    }

    /** Reads a fresh reading into `r`. `inputs` is what successive device
        reads return. The two latches are named as in the driver and are
        cross-wired: a CO2 frame sets `readtemp`, a temperature frame sets
        `readco2`. */
    method Read(r: Reading, inputs: seq<DeviceRead>) returns (err: Outcome, consumed: nat)
      requires Valid() && device.Some?
      modifies r
      ensures var call := ReadCall(key[..], inputs, old(r.Snapshot()));
        err == call.outcome && consumed == call.consumed && r.Snapshot() == call.reading
    {
      var buf := new bv8[8];
      var readtemp, readco2 := false, false;
      var i := 0;
      ghost var k: Bytes8 := key[..];
      ghost var events := Decode(k, inputs);
      ghost var acc := r.Snapshot();
      ghost var target := ReadCall(k, inputs, acc);
      InvariantStart(k, inputs, acc);
      while true
        invariant key[..] == k && |events| == |inputs|
        invariant Invariant(events, i, readtemp, readco2, r.Snapshot(), acc, target)
        decreases |inputs| - i
      {
        InvariantEnd(events, i, readtemp, readco2, r.Snapshot(), acc, target);
        if i == |inputs| {
          return Blocked, i;
        }
        DecodeAt(k, inputs, i);
        if inputs[i].ReadFailed? {
          return CouldNotReadFromDevice, i + 1;
        }
        Receive(buf, inputs, i);
        ghost var plain: Bytes8 := buf[..];
        CrossWiredStep(events, i, readtemp, readco2, r.Snapshot(), acc, target);
        ghost var next := Apply(plain, r.Snapshot());
        i := i + 1;
        if buf[0] == TagCO2 {
          var value := Word(buf[1], buf[2]);
          r.co2PPM := value;
          assert r.Snapshot() == next;
          if readco2 {
            return Complete, i;
          }
          readtemp := true;
        } else if buf[0] == TagTemp {
          var value := Word(buf[1], buf[2]);
          r.temperatureKelvin := Kelvin(value);
          assert r.Snapshot() == next;
          if readtemp {
            return Complete, i;
          }
          readco2 := true;
        }
      }
    }
  }

  /** One frame under the driver's cross-wired latches: `readtemp` records
      that a CO2 frame was seen and `readco2` that a temperature frame was.
      A CO2 frame ends the call iff a temperature frame came before it, and a
      temperature frame iff a CO2 frame did; otherwise a CO2 frame sets
      `readtemp`, a temperature frame sets `readco2`, any other frame sets
      nothing, and the loop goes on. */
  lemma CrossWiredStep(events: seq<Event>, i: nat, readtemp: bool, readco2: bool, snap: Fields, acc: Fields, target: PassResult)
    requires Invariant(events, i, readtemp, readco2, snap, acc, target)
    requires i < |events| && events[i].Frame?
    ensures var plain := events[i].plain;
      var next := Apply(plain, snap);
      var co2 := plain[0] == TagCO2;
      var temp := plain[0] == TagTemp;
      var done := (co2 && readco2) || (temp && readtemp);
      && (done ==> target == PassResult(Complete, i + 1, next))
      && (!done ==> Invariant(events, i + 1, readtemp || co2, readco2 || temp, next, acc, target))
  {
    PassFrameStep(events, i, readtemp, readco2, acc, snap);
  }
}
