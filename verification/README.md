# co2monitor in Dafny

A model of the driver for the USB CO2/temperature sensor in `co2monitor.go`, plus the CO2 colour bands of the desktop front-end (`cmd/co2monitor/main.go`).

The sensor sends 8-byte input reports, obfuscated with a session key that the driver hands it when the device is opened. The model has four modules:

- `Cipher` (`cipher.dfy`): the driver's `decrypt`.
  - As a function, `Decrypt`, split into its four stages:
    1. the byte permutation `[2,4,0,7,1,6,5,3]`;
    2. the XOR with the key, indexed by the destination;
    3. the 3-bit shift across neighbouring bytes, wrapping from byte 7 to byte 0;
    4. the byte-wise subtraction of a constant table.
  - As the in-place method `DecryptInPlace`, over arrays, with the driver's two loops.
  - The device side, `Encrypt`, is rebuilt as the inverse of each stage, and the two are proved to undo each other.
  - Bytes are `bv8`, so the wrap-around of Go's `byte` arithmetic is exact.
- `Assembly` (`assembly.dfy`): what one call of `CO2Monitor.Read` computes, on values.
  - The device's reads are decoded into frames and errors.
  - `Pass` runs through them with one latch per kind.
  - It stops at the first frame at which both kinds (tag `0x50` CO2, tag `0x42` temperature) have been seen, at the first failed read, or when the device has nothing more to send.
  - Declarative predicates (`Seen`, `AllFrames`, `Replay`, `LastOf`) say what the first n reads contain, and lemmas describe `Pass` in those terms.
- `Driver` (`driver.dfy`): the Go objects.
  - `Reading` is a class with the two fields that `Read` writes one by one.
  - `CO2Monitor` holds the key array and the device.
  - `Read` keeps the driver's cross-wired latches: a CO2 frame sets `readtemp` and a temperature frame sets `readco2`. It is proved to produce exactly what `Assembly.ReadCall` describes.
  - `Open` runs the four set-up steps in the driver's order and builds the 9-byte feature report.
- `Bands` (`bands.dfy`): the `switch` that picks the CO2 label colour. It is a total function from ppm to six ordered bands, specified by a table of limits.

The parts of the system outside the driver are inputs to the model:

- The key comes from the random source as `Open`'s `entropy` parameter.
- The HID enumeration, open and feature-report calls are function parameters of `Open`.
- Successive device reads are `Read`'s `inputs`.
- The temperature is kept as the exact real `value / 16`. Go computes it as `float64(value) / 16.0`, which is exact for a 16-bit value.

## Model

| member | source | states |
|---|---|---|
| Cipher.ShuffleIsPermutation | co2monitor.go:111 | the list [2,4,0,7,1,6,5,3] names each of the positions 0..7 exactly once |
| Cipher.ShuffleIsInvolution | co2monitor.go:111 | the permutation is its own inverse, since it swaps (0,2), (1,4), (3,7) and (5,6) |
| Cipher.Unshuffled | co2monitor.go:110-113 | the `tmp` array after the first loop: position j holds the ciphertext byte that the list moves to j, XOR-ed with key[j] |
| Cipher.UnshuffledWrites | co2monitor.go:111-112 | for every pair (i, v) of the list, tmp[v] is data[i] ^ key[v]: the key is indexed by the destination |
| Cipher.FillTmp | co2monitor.go:110-113 | the first loop, run over the list, leaves tmp equal to the unshuffled, key-XOR-ed frame; every position is written exactly once |
| Cipher.ShiftIn | co2monitor.go:115-117 | the bit split of one output byte of the second stage: its high three bits are the low three bits of the left neighbour in `tmp`, its low five bits the high five bits of the byte itself |
| Cipher.RotateIn | co2monitor.go:115-117 | the whole shift stage as a value: byte i joins tmp[i] with tmp[i-1], and byte 0 wraps round to tmp[7]; `RotateInOut` and `RotateOutIn` show it loses no bits |
| Cipher.SubtractTable | co2monitor.go:114-117 | the byte-wise subtraction of the table 0x84, 0x47, 0x56, 0xd6, 0x07, 0x93, 0x93, 0x56 modulo 256, as Go's `byte` arithmetic wraps |
| Cipher.DriverValue | co2monitor.go:115-117 | one output byte exactly as the driver writes it, trailing `+ 0xFF + 1` included; `AddFullTurn` relates it to `ShiftIn` |
| Cipher.AddFullTurn | co2monitor.go:115-117 | the trailing `+ 0xFF + 1` changes no byte: the written value is ShiftIn(cur, left) - second[i] mod 256 |
| Cipher.Decrypt | co2monitor.go:109-119 | all of `decrypt` as a value of the key and the ciphertext frame: unshuffle and XOR, shift with wrap-around, subtract the table; the device-side `Encrypt` is proved to be its two-sided inverse (`DecryptEncrypt`, `EncryptDecrypt`) |
| Cipher.DriverWritesDecrypt | co2monitor.go:114-118 | a frame whose byte 0 is built from tmp[0] and tmp[7], and whose every later byte i is built from tmp[i] and tmp[i-1], is the decrypted frame |
| Cipher.DecryptInPlace | co2monitor.go:109-119 | decrypting in place leaves in data the decryption of its old contents under the old key, even when key and data alias; only data changes |
| Cipher.RotateInOut | co2monitor.go:115-117 | the 3-bit shift across bytes, wrapping from byte 7 to byte 0, undoes its left-rotation inverse |
| Cipher.RotateOutIn | co2monitor.go:115-117 | the left rotation undoes the driver's 3-bit shift, so that stage loses no bits |
| Cipher.UnshuffleShuffle | co2monitor.go:111-113 | the permutation-and-XOR stage undoes its inverse |
| Cipher.ShuffleUnshuffle | co2monitor.go:111-113 | the inverse undoes the permutation-and-XOR stage |
| Cipher.DecryptEncrypt | co2monitor.go:109-119 | decrypting what the device encrypted under the same key gives back the plaintext frame |
| Cipher.EncryptDecrypt | co2monitor.go:109-119 | encrypting a decrypted frame gives back the ciphertext, so decryption is a bijection for each key |
| Cipher.DecryptInjective | co2monitor.go:109-119 | with a fixed key, two different frames never decrypt to the same plaintext |
| Assembly.KindOf | co2monitor.go:82-94 | a frame is a CO2 frame iff its tag byte is 0x50, and a temperature frame iff it is 0x42 |
| Assembly.Word | co2monitor.go:88 | shifting the first byte left by 8 and OR-ing in the second gives b1 * 256 + b2, always below 65536 |
| Assembly.Value | co2monitor.go:88-95 | the value a data frame carries in bytes 1 and 2, read big-endian: b1 * 256 + b2, below 65536 |
| Assembly.Kelvin | co2monitor.go:96 | a raw value is sixteenths of a kelvin: the result is never negative and 16 times it is the raw value, so the division loses nothing |
| Assembly.Apply | co2monitor.go:86-96 | the writes one frame makes: a CO2 frame overwrites only the ppm, a temperature frame only the temperature, a frame with any other tag nothing |
| Assembly.DecodeOne | co2monitor.go:77-81 | a read is an error iff the device read failed, and a delivered frame is replaced by its decryption with the session key |
| Assembly.Decode | co2monitor.go:76-81 | the reads of a call, one event per device read in order; its contract states only the length, and `DecodeAt` states each read's content |
| Assembly.DecodeAt | co2monitor.go:77-81 | every delivered frame is decrypted with the session key before it is looked at, and a failed read is an error |
| Assembly.Pass | co2monitor.go:76-102 | a call never makes more reads than the device delivers, and it ends having made at least one more read unless the device has nothing more to send |
| Assembly.ReadCall | co2monitor.go:73-103 | one whole call on a caller's reading, with both latches clear: it never uses more reads than the device delivers and makes at least one unless it has none; `ReadCallMeaning`, `CompleteIffBoth` and `ReadCallFields` state what it computes |
| Assembly.ReplayFields | co2monitor.go:86-101 | after any run of reads, each field holds the value of the last frame of its kind, or its old value when none came |
| Assembly.PassMeaning | co2monitor.go:75-101 | from any point of the loop, the call stops exactly at the first frame that makes both kinds seen, at the first failed read, or when reads run out; the fields are those the reads so far leave behind |
| Assembly.ReadCallMeaning | co2monitor.go:73-103 | a whole call succeeds only after both kinds were seen, and not one read earlier; it fails only at a failed read, before both were seen |
| Assembly.CompleteIffBoth | co2monitor.go:86-101 | a call succeeds iff some run of successful reads contains both kinds: repeats of one kind never end it and it never misses completion |
| Assembly.ReadCallFields | co2monitor.go:77-96 | whatever the outcome, each field comes from the last frame of its kind read in the call, or is unchanged; a failed read keeps earlier writes |
| Assembly.CompleteOverwritesBoth | co2monitor.go:88-96 | a successful call overwrites both fields, from the last CO2 frame and the last temperature frame, and the ppm is in 0..65535 |
| Assembly.OtherFrameSkipped | co2monitor.go:86-101 | a frame with any other tag leaves the latches and the fields as they were |
| Assembly.RepeatedKindExample | co2monitor.go:86-101 | with CO2, CO2 and then temperature frames, the call ends after the third read with the second CO2 value |
| Assembly.ErrorKeepsWriteExample | co2monitor.go:77-89 | a failed read after a CO2 frame returns the error at once, and the CO2 value written before it stays written |
| Driver.Reading.constructor | co2monitor.go:10-13 | a reading is a temperature in kelvin and a CO2 concentration in ppm, zero when new |
| Driver.CO2Monitor.constructor | co2monitor.go:23-26 | a monitor starts with an all-zero 8-byte key and no device |
| Driver.CO2Monitor.Open | co2monitor.go:41-65 | the steps run in this order: key, enumerate with 0x04d9/0xa052, open the first device, send the report; the first failure decides the error; the report is 0 followed by the 8 key bytes; the device is set only when every step succeeds |
| Driver.CO2Monitor.Receive | co2monitor.go:77-81 | a delivered frame lands in the buffer and is decrypted there with the session key |
| Driver.CO2Monitor.Read | co2monitor.go:73-103 | the loop with its cross-wired latches returns the outcome, the number of reads and the reading that the call description gives |
| Driver.CrossWiredStep | co2monitor.go:86-101 | `readtemp` holds iff a CO2 frame was seen and `readco2` iff a temperature frame was; a CO2 frame completes the call iff a temperature frame came before it, and vice versa |
| Bands.BandOf | cmd/co2monitor/main.go:43-56 | every concentration gets a band, and it lies in that band's interval of the limit table 400, 600, 800, 1000, 1200 |
| Bands.BandOfIffInBand | cmd/co2monitor/main.go:44-55 | a concentration gets a band iff it lies in that band's half-open interval |
| Bands.Monotone | cmd/co2monitor/main.go:43-56 | more CO2 never gives a better band |
| Bands.LimitsAreBoundaries | cmd/co2monitor/main.go:44-54 | one below each limit and the limit itself fall into neighbouring bands (399/400, …, 1199/1200) |
| Bands.EveryBandReached | cmd/co2monitor/main.go:43-56 | each of the six bands is the band of some concentration |
| Bands.Ends | cmd/co2monitor/main.go:44-55 | below 400 is exactly the best band, and 1200 or more, however large, is exactly the worst |

## Left out

- The HID library's enumeration, open, read and feature-report calls, and `Close`, are calls into foreign code. `Open` takes their results as function parameters. `Read` takes the sequence of what successive device reads return. `Close` is not modelled.
- `crypto/rand` is left out. The key arrives as `Open`'s `entropy` parameter, with None for a failing random source.
- Driver.CO2Monitor.Open: when the random source fails, `rand.Read` may have filled part of the key. The model leaves the key as it was.
- Driver.CO2Monitor.Open: the source does not close a device it opened when the feature report then fails. The model does not track open handles, so this leak is not represented.
- Short reads are left out. Device reads deliver whole 8-byte frames (`Bytes8`). In the source, a read of fewer than 8 bytes would make `decrypt` index past the end of the slice.
- Driver.CO2Monitor.Read: when the device has nothing more to send, the source waits in the device read for ever. The model returns the extra outcome `Blocked` instead.
- Driver.CO2Monitor.Read requires an opened device. The source dereferences the device handle, which is nil before a successful `Open`.
- The floating-point conversions `TemperatureCelcius` and `TemperatureFahrenheit` are left out.
- The front-end's window, labels, colours as RGB values and polling goroutine are left out. The band enum stands for the `SetTextColor` calls. The front-end calls `Read` with two arguments, which does not match the one-argument `Read` in co2monitor.go. The model follows co2monitor.go.
- The web server (`web/`) and `co2monitor_test.go`, which needs hardware and only prints, are left out.
- A failed read does not undo the fields written earlier in the same call, because co2monitor.go:89 and :96 write straight into `*r`. The front-end reuses one `Reading` across calls (cmd/co2monitor/main.go:33-37), so after a failed call it holds the values written before the failure. The model keeps this (`Assembly.ReadCallFields`, `Assembly.ErrorKeepsWriteExample`).
