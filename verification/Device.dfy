/**
 The scroll disk as the driver sees it. What the hardware will do with each write command is
 decided beforehand by a list of fates, so that "for every pattern of failures" is a plain
 quantifier.
 */
module Device {
  import opened Bytes
  import opened Record

  type Extent = t: nat | t <= SECTOR_SIZE

  /**
   The outcome of one write command: it lands whole, it fails after `t` bytes reached the sector,
   or the power goes after `t` bytes did.
   */
  datatype Fate = Done | Fails(t: Extent) | Cut(t: Extent)

  /** Sectors, what will become of the coming write commands (the rest succeed), and the power. */
  datatype Device = Device(sectors: seq<Sector>, fates: seq<Fate>, powered: bool)

  /** `ata::write_sector`: the new device, and whether the driver reported success. */
  function Attempt(d: Device, lba: nat, sector: Sector): (Device, bool)
    requires lba < |d.sectors|
  {
    if !d.powered then (d, false)
    else if d.fates == [] then (d.(sectors := d.sectors[lba := sector]), true)
    else
      var rest := d.fates[1..];
      match d.fates[0]
      case Done => (d.(sectors := d.sectors[lba := sector], fates := rest), true)
      case Fails(t) => (d.(sectors := d.sectors[lba := Tear(d.sectors[lba], sector, t)], fates := rest), false)
      case Cut(t) =>
        (d.(sectors := d.sectors[lba := Tear(d.sectors[lba], sector, t)], fates := rest, powered := false), false)
  }

  /** Exactly one sector changes, to some of the new bytes before some of the old; success means it is all new. */
  predicate Written(before: Device, after: Device, lba: nat, sector: Sector, ok: bool, t: Extent)
    requires lba < |before.sectors|
  {
    && after.sectors == before.sectors[lba := Tear(before.sectors[lba], sector, t)]
    && (ok ==> before.powered && after.powered && t == SECTOR_SIZE)
    && (!before.powered ==> after == before && !ok)
  }

  lemma AttemptWrites(d: Device, lba: nat, sector: Sector) returns (t: Extent)
    requires lba < |d.sectors|
    ensures var (d', ok) := Attempt(d, lba, sector); Written(d, d', lba, sector, ok, t)
  {
    var whole := d.powered && (d.fates == [] || d.fates[0].Done?);
    t := if whole then SECTOR_SIZE else if d.powered then d.fates[0].t else 0;
    assert Tear(d.sectors[lba], sector, SECTOR_SIZE) == sector;
    assert Tear(d.sectors[lba], sector, 0) == d.sectors[lba];
  }

  /** The retry loop of `Scroll::write`, with `n` attempts left. */
  function Retry(d: Device, lba: nat, sector: Sector, n: nat): (r: (Device, bool))
    requires lba < |d.sectors|
    ensures |r.0.sectors| == |d.sectors|
    decreases n
  {
    if n == 0 then (d, false)
    else
      var (d', ok) := Attempt(d, lba, sector);
      if ok then (d', true) else Retry(d', lba, sector, n - 1)
  }

  // ------------------------------------------------- all attempts at one write

  /** How much of the sector some attempt of the next `n` reaches: all of it once one succeeds. */
  function Reached(fates: seq<Fate>, powered: bool, n: nat): Extent
    decreases n
  {
    if n == 0 || !powered then 0
    else if fates == [] || fates[0].Done? then SECTOR_SIZE
    else
      var more := Reached(fates[1..], fates[0].Fails?, n - 1);
      if fates[0].t < more then more else fates[0].t
  }

  lemma TearNothing(old_: Sector, new_: Sector)
    ensures Tear(old_, new_, 0) == old_ && Tear(old_, new_, SECTOR_SIZE) == new_
  {}

  /**
   The attempts at one record act as one: they change one sector, and leave it torn where the furthest
   of them stopped. Success means that all of it is there.
   */
  lemma {:induction false} RetryTears(d: Device, lba: nat, sector: Sector, n: nat)
    requires lba < |d.sectors|
    ensures var (d', ok) := Retry(d, lba, sector, n);
            var t := Reached(d.fates, d.powered, n);
            && d'.sectors == d.sectors[lba := Tear(d.sectors[lba], sector, t)]
            && (ok ==> d'.powered && t == SECTOR_SIZE)
            && (t < SECTOR_SIZE ==> !ok)
    decreases n
  {
    hide Tear;
    TearNothing(d.sectors[lba], sector);
    if n != 0 && d.powered {
      var (d', ok) := Attempt(d, lba, sector);
      if !ok {
        RetryTears(d', lba, sector, n - 1);
        TearTwice(d.sectors[lba], sector, d.fates[0].t, Reached(d'.fates, d'.powered, n - 1));
      }
    } else {
      assert d.sectors[lba := d.sectors[lba]] == d.sectors;
      if n != 0 {
        RetryTears(d, lba, sector, n - 1);
      }
    }
  }

  // ------------------------------------------------- when a write succeeds

  /** The first `k` of these commands fail while the power stays on, and the next lands. */
  predicate LandsAt(fates: seq<Fate>, k: nat) {
    && k <= |fates| && (forall i :: 0 <= i < k ==> fates[i].Fails?)
    && (k == |fates| || fates[k].Done?)
  }

  /** One of the next `n` commands lands. */
  ghost predicate Lands(fates: seq<Fate>, powered: bool, n: nat) {
    powered && exists k: nat :: k < n && LandsAt(fates, k)
  }

  /** What is left to come after `k` commands and one more. */
  function Spent(fates: seq<Fate>, k: nat): seq<Fate> {
    fates[Min(k + 1, |fates|)..]
  }

  lemma LandsLater(fates: seq<Fate>, n: nat)
    requires fates != [] && fates[0].Fails? && n > 0
    ensures Lands(fates, true, n) <==> Lands(fates[1..], true, n - 1)
    ensures forall k: nat :: LandsAt(fates, k) ==> k > 0 && LandsAt(fates[1..], k - 1)
  {
    forall k: nat | LandsAt(fates[1..], k)
      ensures LandsAt(fates, k + 1)
    {}
    if Lands(fates, true, n) {
      var k: nat :| k < n && LandsAt(fates, k);
      assert LandsAt(fates[1..], k - 1);
    }
  }

  lemma LandsNow(fates: seq<Fate>)
    ensures LandsAt(fates, 0) <==> fates == [] || fates[0].Done?
    ensures forall k: nat :: LandsAt(fates, k) && LandsAt(fates, 0) ==> k == 0
    ensures fates != [] && fates[0].Cut? ==> forall k: nat :: !LandsAt(fates, k)
  {}

  /**
   The attempts succeed if and only if one of them lands before any power loss; they stop there, with the
   sector stored, and use up no more commands than that.
   */
  lemma {:induction false} RetryLands(d: Device, lba: nat, sector: Sector, n: nat)
    requires lba < |d.sectors|
    ensures Retry(d, lba, sector, n).1 <==> Lands(d.fates, d.powered, n)
    ensures forall k: nat :: k < n && d.powered && LandsAt(d.fates, k) ==>
              Retry(d, lba, sector, n).0 == Device(d.sectors[lba := sector], Spent(d.fates, k), true)
    decreases n
  {
    hide Tear, LandsAt;
    LandsNow(d.fates);
    if n != 0 && d.powered {
      if d.fates == [] || d.fates[0].Done? {
        assert LandsAt(d.fates, 0);
        assert d.fates == [] ==> Spent(d.fates, 0) == [];
      } else if d.fates[0].Fails? {
        var (d', ok) := Attempt(d, lba, sector);
        LandsLater(d.fates, n);
        RetryLands(d', lba, sector, n - 1);
        forall k: nat | k < n && LandsAt(d.fates, k)
          ensures Retry(d, lba, sector, n).0 == Device(d.sectors[lba := sector], Spent(d.fates, k), true)
        {
          assert LandsAt(d'.fates, k - 1) && Spent(d'.fates, k - 1) == Spent(d.fates, k);
          assert d'.sectors[lba := sector] == d.sectors[lba := sector];
        }
      } else {
        var (d', ok) := Attempt(d, lba, sector);
        RetryFates(d', lba, sector, n - 1);
      }
    } else if n != 0 {
      RetryFates(d, lba, sector, n);
    }
  }

  /** No power loss to come, and never three failures in a row. */
  ghost predicate Steady(fates: seq<Fate>) {
    && (forall f <- fates :: !f.Cut?)
    && (forall i: nat :: DoneSoon(fates, i))
  }

  predicate DoneSoon(fates: seq<Fate>, i: nat) {
    i + 2 < |fates| ==> fates[i].Done? || fates[i + 1].Done? || fates[i + 2].Done?
  }

  lemma SteadyLands(fates: seq<Fate>) returns (k: nat)
    requires Steady(fates)
    ensures k < 3 && LandsAt(fates, k)
  {
    assert DoneSoon(fates, 0);
    assert forall i :: 0 <= i < |fates| ==> fates[i] in fates;
    k := if fates == [] || fates[0].Done? then 0 else if |fates| == 1 || fates[1].Done? then 1 else 2;
  }

  /** What lands within three commands leaves coming failures as frequent as they were. */
  lemma SteadySpent(fates: seq<Fate>, k: nat)
    requires k < 3 && LandsAt(fates, k)
    ensures Steady(Spent(fates, k)) <==> Steady(fates)
  {
    var j := Min(k + 1, |fates|);
    var rest := Spent(fates, k);
    assert forall i :: 0 <= i < |rest| ==> rest[i] == fates[j + i];
    if Steady(fates) {
      forall i: nat
        ensures DoneSoon(rest, i)
      {
        assert DoneSoon(fates, j + i);
      }
    }
    if Steady(rest) {
      forall i: nat
        ensures DoneSoon(fates, i)
      {
        assert i >= j ==> DoneSoon(rest, i - j);
      }
      forall f | f in fates
        ensures !f.Cut?
      {
        var i :| 0 <= i < |fates| && fates[i] == f;
        assert i >= j ==> rest[i - j] in rest;
      }
    }
  }

  /** Three attempts are enough, now and later, exactly if there are never three failures in a row and no power loss. */
  lemma RetrySteady(d: Device, lba: nat, sector: Sector)
    requires lba < |d.sectors|
    ensures var (d', ok) := Retry(d, lba, sector, 3);
            && (ok && d'.powered && Steady(d'.fates) <==> d.powered && Steady(d.fates))
            && (d.powered && Steady(d.fates) ==> Reached(d.fates, true, 3) == SECTOR_SIZE)
  {
    hide Retry, Steady, LandsAt;
    RetryLands(d, lba, sector, 3);
    RetryTears(d, lba, sector, 3);
    if Lands(d.fates, d.powered, 3) {
      var k: nat :| k < 3 && LandsAt(d.fates, k);
      SteadySpent(d.fates, k);
    }
    if d.powered && Steady(d.fates) {
      var k := SteadyLands(d.fates);
    }
  }

  // ------------------------------------------------- keystrokes need no luck

  /** No coming tear stops inside the six description bytes. */
  predicate Whole(fates: seq<Fate>) {
    forall f <- fates :: f.Done? || f.t <= 12 || f.t >= 18
  }

  lemma {:induction false} WholeReached(fates: seq<Fate>, powered: bool, n: nat)
    requires Whole(fates)
    ensures Reached(fates, powered, n) <= 12 || Reached(fates, powered, n) >= 18
    decreases n
  {
    if n > 0 && powered && fates != [] && !fates[0].Done? {
      WholeReached(fates[1..], fates[0].Fails?, n - 1);
    }
  }

  /** The fates still to come are among those there were. */
  lemma {:induction false} RetryFates(d: Device, lba: nat, sector: Sector, n: nat)
    requires lba < |d.sectors|
    ensures var (d', ok) := Retry(d, lba, sector, n);
            && (Whole(d.fates) ==> Whole(d'.fates))
            && (!d.powered ==> !ok && d' == d)
    decreases n
  {
    if n != 0 {
      var (d', ok) := Attempt(d, lba, sector);
      if !ok {
        RetryFates(d', lba, sector, n - 1);
      }
    }
  }
}
