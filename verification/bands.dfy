/** The colour the desktop front-end gives its CO2 label
    (cmd/co2monitor/main.go), as one of six bands ordered from the best air
    to the worst. */
module Bands {

  datatype Band = Perfect | Excellent | Good | Bad | Lousy | Horrible

  /** The position of a band, 0 for the best and 5 for the worst. */
  function Rank(b: Band): (n: nat)
    ensures n < 6
  {
    match b
    case Perfect => 0
    case Excellent => 1
    case Good => 2
    case Bad => 3
    case Lousy => 4
    case Horrible => 5
  }

  /** The exclusive upper limits, in ppm, of the first five bands; the last
      band has none. */
  const Limits: seq<int> := [400, 600, 800, 1000, 1200]

  /** The band's interval in ppm: from the previous band's limit, inclusive,
      to its own limit, exclusive. */
  predicate InBand(ppm: int, b: Band)
  {
    && (Rank(b) == 0 || Limits[Rank(b) - 1] <= ppm)
    && (Rank(b) == 5 || ppm < Limits[Rank(b)])
  }

  /** The `switch` on the concentration: the first case whose limit it is
      below, and the `default` arm for everything from 1200 up. */
  function BandOf(ppm: int): (b: Band)
    ensures InBand(ppm, b)
  {
    if ppm < 400 then Perfect
    else if ppm < 600 then Excellent
    else if ppm < 800 then Good
    else if ppm < 1000 then Bad
    else if ppm < 1200 then Lousy
    else Horrible
  }

  /** The bands are exactly the half-open intervals between the limits: a
      concentration gets a band iff it lies in that band's interval. */
  lemma BandOfIffInBand(ppm: int, b: Band)
    ensures BandOf(ppm) == b <==> InBand(ppm, b)
  {
  }

  /** More CO2 never gives a better band. */
  lemma Monotone(a: int, b: int)
    requires a <= b
    ensures Rank(BandOf(a)) <= Rank(BandOf(b))
  {
  }

  /** One ppm below each limit and the limit itself fall into neighbouring
      bands, so every limit is a boundary: 399 and 400 differ, and so do 1199
      and 1200. */
  lemma LimitsAreBoundaries(i: nat)
    requires i < 5
    ensures Rank(BandOf(Limits[i] - 1)) == i
    ensures Rank(BandOf(Limits[i])) == i + 1
  {
    BandOfIffInBand(Limits[i] - 1, BandOf(Limits[i] - 1));
    BandOfIffInBand(Limits[i], BandOf(Limits[i]));
  }

  /** Every one of the six bands is produced by some concentration. */
  lemma EveryBandReached(b: Band)
    ensures exists ppm :: BandOf(ppm) == b
  {
    var ppm := if Rank(b) == 0 then 0 else Limits[Rank(b) - 1];
    assert BandOf(ppm) == b;
  }

  /** The two ends of the scale: everything below 400 is the best band, and
      everything from 1200 up, however large, is the worst. */
  lemma Ends(ppm: int)
    ensures ppm < 400 <==> BandOf(ppm) == Perfect
    ensures ppm >= 1200 <==> BandOf(ppm) == Horrible
  {
  }
}
