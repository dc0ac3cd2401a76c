/**
 * The exhaustive search of `main`: every bit depth from 1 to maxBits, every
 * channel configuration, both bit orders and both flows, in that nesting.
 * Each attempt extracts, assembles, scans and carves; every match is
 * counted and its payload written, a failed write still being counted.
 * The file system is a log of saved artifacts; which writes fail is a
 * parameter.
 */
module Search {
  import opened Binary
  import opened Wrappers
  import opened Extraction
  import opened Assembly
  import opened Signatures
  import opened Carving

  /** The two extraction methods, 'planes' and 'pixel_by_pixel'. */
  datatype Flow = Planes | PixelByPixel

  /** One combination of the search. */
  datatype Config = Config(numLsb: nat, channels: seq<nat>, lsbFirst: bool, flow: Flow)

  /** RGB, BGR, RGBA, R, G, B, A: channel indices 0..3 of an RGBA pixel. */
  const ChannelConfigs: seq<seq<nat>> := [[0, 1, 2], [2, 1, 0], [0, 1, 2, 3], [0], [1], [2], [3]]

  /** MSB-first, then LSB-first. */
  const BitOrders: seq<bool> := [false, true]

  const Flows: seq<Flow> := [Planes, PixelByPixel]

  /**
   * Reference order: attempt number t read as a mixed-radix number, bit
   * depth, then channel config, then bit order, then flow.
   */
  function AttemptAt(t: nat): Config
  {
    Config(t / 28 + 1, ChannelConfigs[(t % 28) / 4], BitOrders[(t % 4) / 2], Flows[t % 2])
  }

  /** Innermost loop: the first f flows for bit depth n, channel config c, bit order l. */
  function FlowBlock(n: nat, c: nat, l: nat, f: nat): (r: seq<Config>)
    requires c < 7 && l < 2 && f <= 2
    ensures |r| == f
  {
    if f == 0 then [] else FlowBlock(n, c, l, f - 1) + [Config(n, ChannelConfigs[c], BitOrders[l], Flows[f - 1])]
  }

  /** The first l bit orders, each with both flows. */
  function OrderBlock(n: nat, c: nat, l: nat): (r: seq<Config>)
    requires c < 7 && l <= 2
    ensures |r| == 2 * l
  {
    if l == 0 then [] else OrderBlock(n, c, l - 1) + FlowBlock(n, c, l - 1, 2)
  }

  /** The first c channel configs of bit depth n, each with every bit order and flow. */
  function ChannelBlock(n: nat, c: nat): (r: seq<Config>)
    requires c <= 7
    ensures |r| == 4 * c
  {
    if c == 0 then [] else ChannelBlock(n, c - 1) + OrderBlock(n, c - 1, 2)
  }

  /** All attempts for bit depths 1 .. maxBits, in the order of the nested loops: 7 * 2 * 2 per depth. */
  function Attempts(maxBits: nat): (r: seq<Config>)
    ensures |r| == 28 * maxBits
  {
    if maxBits == 0 then [] else Attempts(maxBits - 1) + ChannelBlock(maxBits, 7)
  }

  lemma {:induction false} FlowBlockAt(n: nat, c: nat, l: nat, f: nat, i: nat)
    requires c < 7 && l < 2 && i < f <= 2
    ensures FlowBlock(n, c, l, f)[i] == Config(n, ChannelConfigs[c], BitOrders[l], Flows[i])
  {
    if i < f - 1 {
      FlowBlockAt(n, c, l, f - 1, i);
    }
  }

  lemma {:induction false} OrderBlockAt(n: nat, c: nat, l: nat, i: nat)
    requires c < 7 && l <= 2 && i < 2 * l
    ensures OrderBlock(n, c, l)[i] == Config(n, ChannelConfigs[c], BitOrders[i / 2], Flows[i % 2])
  {
    if i < 2 * (l - 1) {
      OrderBlockAt(n, c, l - 1, i);
    } else {
      var j := i - 2 * (l - 1);
      FlowBlockAt(n, c, l - 1, 2, j);
      DivModUnique(i, 2, l - 1, j);
    }
  }

  lemma {:induction false} ChannelBlockAt(n: nat, c: nat, i: nat)
    requires c <= 7 && i < 4 * c
    ensures ChannelBlock(n, c)[i] == Config(n, ChannelConfigs[i / 4], BitOrders[(i % 4) / 2], Flows[i % 2])
  {
    if i < 4 * (c - 1) {
      ChannelBlockAt(n, c - 1, i);
    } else {
      var j := i - 4 * (c - 1);
      OrderBlockAt(n, c - 1, 2, j);
      DivModUnique(i, 4, c - 1, j);
      DivModUnique(i, 2, 2 * (c - 1) + j / 2, j % 2);
    }
  }

  /** The nested loops visit the attempts in the reference order. */
  lemma {:induction false} AttemptsAt(maxBits: nat, t: nat)
    requires t < |Attempts(maxBits)|
    ensures Attempts(maxBits)[t] == AttemptAt(t)
  {
    var m := maxBits;
    if t < 28 * (m - 1) {
      AttemptsAt(m - 1, t);
    } else {
      var j := t - 28 * (m - 1);
      ChannelBlockAt(m, 7, j);
      DivModUnique(t, 28, m - 1, j);
      DivModUnique(t, 4, 7 * (m - 1) + j / 4, j % 4);
      DivModUnique(t, 2, 14 * (m - 1) + j / 2, j % 2);
    }
  }

  /** The combination (n, c, l, f) is attempt 28(n-1) + 4c + 2l + f. */
  lemma AttemptAtDecode(n: nat, c: nat, l: nat, f: nat)
    requires 1 <= n && c < 7 && l < 2 && f < 2
    ensures AttemptAt(28 * (n - 1) + 4 * c + 2 * l + f) == Config(n, ChannelConfigs[c], BitOrders[l], Flows[f])
  {
    var t := 28 * (n - 1) + 4 * c + 2 * l + f;
    DivModUnique(t, 28, n - 1, 4 * c + 2 * l + f);
    DivModUnique(4 * c + 2 * l + f, 4, c, 2 * l + f);
    DivModUnique(t, 4, 7 * (n - 1) + c, 2 * l + f);
    DivModUnique(2 * l + f, 2, l, f);
    DivModUnique(t, 2, 14 * (n - 1) + 2 * c + l, f);
  }

  lemma {:induction false} OrderBlockPart(n: nat, c: nat, l': nat, l: nat, i: nat)
    requires c < 7 && l < l' <= 2 && i < 2
    ensures OrderBlock(n, c, l')[2 * l + i] == FlowBlock(n, c, l, 2)[i]
  {
    if l < l' - 1 {
      OrderBlockPart(n, c, l' - 1, l, i);
    }
  }

  lemma {:induction false} ChannelBlockPart(n: nat, c': nat, c: nat, i: nat)
    requires c < c' <= 7 && i < 4
    ensures ChannelBlock(n, c')[4 * c + i] == OrderBlock(n, c, 2)[i]
  {
    if c < c' - 1 {
      ChannelBlockPart(n, c' - 1, c, i);
    }
  }

  lemma {:induction false} AttemptsPart(maxBits: nat, n: nat, i: nat)
    requires 1 <= n <= maxBits && i < 28
    ensures Attempts(maxBits)[28 * (n - 1) + i] == ChannelBlock(n, 7)[i]
  {
    if n < maxBits {
      AttemptsPart(maxBits - 1, n, i);
    }
  }

  /** Nested order: bit depth, then channel config, then bit order, then flow. */
  lemma AttemptsNested(maxBits: nat, n: nat, c: nat, l: nat, f: nat)
    requires 1 <= n <= maxBits && c < 7 && l < 2 && f < 2
    ensures 28 * (n - 1) + 4 * c + 2 * l + f < |Attempts(maxBits)|
    ensures Attempts(maxBits)[28 * (n - 1) + 4 * c + 2 * l + f] == Config(n, ChannelConfigs[c], BitOrders[l], Flows[f])
  {
    AttemptsPart(maxBits, n, 4 * c + 2 * l + f);
    ChannelBlockPart(n, 7, c, 2 * l + f);
    OrderBlockPart(n, c, 2, l, f);
    FlowBlockAt(n, c, l, 2, f);
  }

  /** Every attempt index is the mixed-radix number of its four digits. */
  lemma Digits(t: nat)
    ensures t == 28 * (t / 28) + 4 * ((t % 28) / 4) + 2 * ((t % 4) / 2) + t % 2
  {
    var q, r := t / 28, t % 28;
    var c, s := r / 4, r % 4;
    DivModUnique(t, 4, 7 * q + c, s);
    DivModUnique(t, 2, 14 * q + 2 * c + s / 2, s % 2);
  }

  lemma ConfigsDistinct(i: nat, j: nat)
    requires i < 7 && j < 7 && ChannelConfigs[i] == ChannelConfigs[j]
    ensures i == j
  {
    var cc := ChannelConfigs;
    assert |cc[0]| == 3 && |cc[1]| == 3 && |cc[2]| == 4;
    assert cc[0][0] == 0 && cc[1][0] == 2;
    assert cc[3] == [0] && cc[4] == [1] && cc[5] == [2] && cc[6] == [3];
  }

  /** Equal configurations come from the same attempt index. */
  lemma AttemptAtInjective(t: nat, u: nat)
    requires AttemptAt(t) == AttemptAt(u)
    ensures t == u
  {
    ConfigsDistinct((t % 28) / 4, (u % 28) / 4);
    assert (t % 4) / 2 == (u % 4) / 2 && t % 2 == u % 2;
    Digits(t);
    Digits(u);
  }

  /** No combination is tried twice. */
  lemma AttemptsDistinct(maxBits: nat, t: nat, u: nat)
    requires t < |Attempts(maxBits)| && u < |Attempts(maxBits)|
    ensures Attempts(maxBits)[t] == Attempts(maxBits)[u] ==> t == u
  {
    AttemptsAt(maxBits, t);
    AttemptsAt(maxBits, u);
    if AttemptAt(t) == AttemptAt(u) {
      AttemptAtInjective(t, u);
    }
  }

  /** The bit stream of one attempt. */
  function Extract(pixels: seq<Pixel>, cfg: Config): seq<Bit>
  {
    match cfg.flow
    case Planes => ByPlane(pixels, cfg.numLsb, cfg.channels)
    case PixelByPixel => ByPixel(pixels, cfg.numLsb, cfg.channels)
  }

  /** What one attempt finds: the detected type, where it starts, and the carved bytes. */
  datatype Found = Found(fileType: FileType, start: nat, payload: seq<Byte>)

  /** The table's patterns are all non-empty, so empty data matches nothing. */
  lemma NothingInEmpty()
    ensures forall e :: 0 <= e < |Table| ==> !Occurs([], Table[e].magic)
  {
    forall e | 0 <= e < |Table|
      ensures !Occurs([], Table[e].magic)
    {
      assert |Table[e].magic| >= 2;
    }
  }

  /** A reported offset lies inside the data: the matched pattern is not empty. */
  lemma ScanInBounds(data: seq<Byte>)
    requires Scan(data).Some?
    ensures Scan(data).value.start < |data|
  {
    var m := Scan(data).value;
    var e :| 0 <= e < |Table| && FirstHit(data, 0, e, m);
    PatternNonEmpty(e);
  }

  /** The scan and carve of one attempt's bytes; nothing for empty data. */
  function Classify(data: seq<Byte>): Option<Found>
  {
    if data == [] then None
    else
      match Scan(data)
      case None => None
      case Some(m) =>
        ScanInBounds(data);
        Some(Found(m.fileType, m.start, Carve(data, m.fileType, m.start)))
  }

  /** One attempt: extract, give up on an empty stream, assemble, classify. */
  function Outcome(pixels: seq<Pixel>, cfg: Config): Option<Found>
  {
    var bits := Extract(pixels, cfg);
    if bits == [] then None else Classify(Assemble(bits, cfg.lsbFirst))
  }

  /**
   * An attempt finds something exactly when some table entry occurs in its
   * bytes, so the two early exits on an empty stream lose nothing; what it
   * finds is the scanner's type and offset and the carved slice from there.
   */
  lemma OutcomeSpec(pixels: seq<Pixel>, cfg: Config)
    ensures var data := Assemble(Extract(pixels, cfg), cfg.lsbFirst);
      var r := Outcome(pixels, cfg);
      && (r.None? <==> forall e :: 0 <= e < |Table| ==> !Occurs(data, Table[e].magic))
      && (r.Some? ==> Scan(data) == Some(Match(r.value.fileType, r.value.start))
                      && r.value.start <= |data|
                      && r.value.payload == Carve(data, r.value.fileType, r.value.start))
  {
    var bits := Extract(pixels, cfg);
    var data := Assemble(bits, cfg.lsbFirst);
    NothingInEmpty();
    if bits != [] && data != [] && Scan(data).Some? {
      ScanInBounds(data);
    }
  }

  method Attempt(pixels: seq<Pixel>, cfg: Config) returns (r: Option<Found>)
    ensures r == Outcome(pixels, cfg)
  {
    var bits;
    if cfg.flow == Planes {
      bits := ExtractByPlane(pixels, cfg.numLsb, cfg.channels);
    } else {
      bits := ExtractByPixel(pixels, cfg.numLsb, cfg.channels);
    }
    if bits == [] {
      return None;
    }
    var data := BitsToBytes(bits, cfg.lsbFirst);
    if data == [] {
      return None;
    }
    var m := FindSignature(data);
    if m.None? {
      return None;
    }
    ScanInBounds(data);
    var payload := Carve(data, m.value.fileType, m.value.start);
    return Some(Found(m.value.fileType, m.value.start, payload));
  }

  /** An output file: its discovery number, the attempt's configuration, type and bytes. */
  datatype Artifact = Artifact(number: nat, config: Config, fileType: FileType, payload: seq<Byte>)

  /** The log after one more attempt with result r: a match gets the next number. */
  function Next(prev: seq<Artifact>, cfg: Config, r: Option<Found>): seq<Artifact>
  {
    match r
    case None => prev
    case Some(f) => prev + [Artifact(|prev| + 1, cfg, f.fileType, f.payload)]
  }

  /** The numbered matches of attempts cfgs whose results were outs. */
  function Numbered(cfgs: seq<Config>, outs: seq<Option<Found>>): seq<Artifact>
    requires |outs| == |cfgs|
  {
    if cfgs == [] then []
    else Next(Numbered(cfgs[..|cfgs| - 1], outs[..|outs| - 1]), cfgs[|cfgs| - 1], outs[|outs| - 1])
  }

  lemma NumberedSnoc(cfgs: seq<Config>, outs: seq<Option<Found>>, cfg: Config, r: Option<Found>)
    requires |outs| == |cfgs|
    ensures Numbered(cfgs + [cfg], outs + [r]) == Next(Numbered(cfgs, outs), cfg, r)
  {
    assert (cfgs + [cfg])[..|cfgs|] == cfgs;
    assert (outs + [r])[..|outs|] == outs;
  }

  /** The result of each attempt. */
  function Outcomes(pixels: seq<Pixel>, cfgs: seq<Config>): (outs: seq<Option<Found>>)
    ensures |outs| == |cfgs|
  {
    seq(|cfgs|, i requires 0 <= i < |cfgs| => Outcome(pixels, cfgs[i]))
  }

  /** outs holds the result of each attempt in tried. */
  predicate Results(pixels: seq<Pixel>, tried: seq<Config>, outs: seq<Option<Found>>)
  {
    && |outs| == |tried|
    && forall i {:trigger Outcome(pixels, tried[i])} :: 0 <= i < |tried| ==> outs[i] == Outcome(pixels, tried[i])
  }

  lemma ResultsExtend(pixels: seq<Pixel>, tried: seq<Config>, outs: seq<Option<Found>>, cfg: Config, r: Option<Found>)
    requires Results(pixels, tried, outs) && r == Outcome(pixels, cfg)
    ensures Results(pixels, tried + [cfg], outs + [r])
  {
    var t, o := tried + [cfg], outs + [r];
    forall i | 0 <= i < |t|
      ensures o[i] == Outcome(pixels, t[i])
    {
      if i < |tried| {
        assert t[i] == tried[i] && o[i] == outs[i];
        assert Outcome(pixels, tried[i]) == outs[i];
      }
    }
  }

  lemma ResultsAreOutcomes(pixels: seq<Pixel>, tried: seq<Config>, outs: seq<Option<Found>>)
    requires Results(pixels, tried, outs)
    ensures outs == Outcomes(pixels, tried)
  {
    forall i | 0 <= i < |tried|
      ensures outs[i] == Outcomes(pixels, tried)[i]
    {
      assert outs[i] == Outcome(pixels, tried[i]);
    }
  }

  /** Every match of the given attempts, numbered from 1 in attempt order. */
  function Discoveries(pixels: seq<Pixel>, cfgs: seq<Config>): seq<Artifact>
  {
    Numbered(cfgs, Outcomes(pixels, cfgs))
  }

  /** The artifacts whose write succeeded. */
  function Saved(ds: seq<Artifact>, writeFails: set<nat>): seq<Artifact>
  {
    if ds == [] then []
    else
      var prev := Saved(ds[..|ds| - 1], writeFails);
      var a := ds[|ds| - 1];
      if a.number in writeFails then prev else prev + [a]
  }

  lemma SavedSnoc(ds: seq<Artifact>, a: Artifact, writeFails: set<nat>)
    ensures Saved(ds + [a], writeFails) == if a.number in writeFails then Saved(ds, writeFails) else Saved(ds, writeFails) + [a]
  {
    assert (ds + [a])[..|ds|] == ds;
  }

  /** The number of attempts, among those with results outs, that found something. */
  function MatchCount(outs: seq<Option<Found>>): nat
  {
    if outs == [] then 0
    else MatchCount(outs[..|outs| - 1]) + (if outs[|outs| - 1].Some? then 1 else 0)
  }

  /** One discovery per matching attempt, and no more. */
  lemma {:induction false} CountIsMatches(cfgs: seq<Config>, outs: seq<Option<Found>>)
    requires |outs| == |cfgs|
    ensures |Numbered(cfgs, outs)| == MatchCount(outs)
  {
    if cfgs != [] {
      CountIsMatches(cfgs[..|cfgs| - 1], outs[..|outs| - 1]);
    }
  }

  /** A matching attempt t is counted before any later attempt u. */
  lemma {:induction false} MatchCountGrows(outs: seq<Option<Found>>, t: nat, u: nat)
    requires t < u <= |outs| && outs[t].Some?
    ensures MatchCount(outs[..t]) < MatchCount(outs[..u])
  {
    assert outs[..u][..u - 1] == outs[..u - 1];
    if u == t + 1 {
      assert outs[..u][u - 1] == outs[t];
    } else {
      MatchCountGrows(outs, t, u - 1);
    }
  }

  /**
   * Entry k carries number k + 1: the numbers run 1, 2, 3, ... by position
   * (attempt order is NumberedComplete with MatchCountGrows).
   */
  lemma {:induction false} NumberedNumbers(cfgs: seq<Config>, outs: seq<Option<Found>>)
    requires |outs| == |cfgs|
    ensures forall k :: 0 <= k < |Numbered(cfgs, outs)| ==> Numbered(cfgs, outs)[k].number == k + 1
  {
    if cfgs != [] {
      NumberedNumbers(cfgs[..|cfgs| - 1], outs[..|outs| - 1]);
    }
  }

  /** Every discovery is the match of some attempt, with its configuration, type and bytes. */
  lemma {:induction false} NumberedSound(cfgs: seq<Config>, outs: seq<Option<Found>>, k: nat)
    requires |outs| == |cfgs| && k < |Numbered(cfgs, outs)|
    ensures var a := Numbered(cfgs, outs)[k];
      exists t :: 0 <= t < |cfgs| && cfgs[t] == a.config && outs[t].Some?
        && outs[t].value.fileType == a.fileType && outs[t].value.payload == a.payload
  {
    var last := |cfgs| - 1;
    var prev := Numbered(cfgs[..last], outs[..last]);
    var a := Numbered(cfgs, outs)[k];
    if k < |prev| {
      assert a == prev[k];
      NumberedSound(cfgs[..last], outs[..last], k);
      var t :| 0 <= t < last && cfgs[..last][t] == a.config && outs[..last][t].Some?
        && outs[..last][t].value.fileType == a.fileType && outs[..last][t].value.payload == a.payload;
      assert cfgs[t] == cfgs[..last][t] && outs[t] == outs[..last][t];
    } else {
      assert outs[last].Some? && cfgs[last] == a.config;
    }
  }

  /**
   * The match of attempt t is the discovery at index k, where k counts the
   * matching attempts before t; it carries number k + 1.
   */
  lemma {:induction false} NumberedComplete(cfgs: seq<Config>, outs: seq<Option<Found>>, t: nat)
    requires |outs| == |cfgs| && t < |cfgs| && outs[t].Some?
    ensures var k := MatchCount(outs[..t]);
      && k < |Numbered(cfgs, outs)|
      && Numbered(cfgs, outs)[k] == Artifact(k + 1, cfgs[t], outs[t].value.fileType, outs[t].value.payload)
  {
    var last := |cfgs| - 1;
    var prev := Numbered(cfgs[..last], outs[..last]);
    var ds := Numbered(cfgs, outs);
    var k := MatchCount(outs[..t]);
    if t == last {
      CountIsMatches(cfgs[..last], outs[..last]);
      assert ds[|prev|] == Artifact(|prev| + 1, cfgs[t], outs[t].value.fileType, outs[t].value.payload);
    } else {
      assert cfgs[..last][t] == cfgs[t] && outs[..last][t] == outs[t];
      assert outs[..last][..t] == outs[..t];
      NumberedComplete(cfgs[..last], outs[..last], t);
      assert ds[k] == prev[k];
    }
  }

  /** The discoveries of the attempts cfgs are numbered 1, 2, 3, ... */
  lemma DiscoveriesNumbered(pixels: seq<Pixel>, cfgs: seq<Config>)
    ensures forall k :: 0 <= k < |Discoveries(pixels, cfgs)| ==> Discoveries(pixels, cfgs)[k].number == k + 1
  {
    NumberedNumbers(cfgs, Outcomes(pixels, cfgs));
  }

  /** Each discovery is what one of the attempts found. */
  lemma DiscoveriesSound(pixels: seq<Pixel>, cfgs: seq<Config>, k: nat)
    requires k < |Discoveries(pixels, cfgs)|
    ensures var a := Discoveries(pixels, cfgs)[k];
      exists t :: 0 <= t < |cfgs| && cfgs[t] == a.config && Outcome(pixels, cfgs[t]).Some?
        && Outcome(pixels, cfgs[t]).value.fileType == a.fileType && Outcome(pixels, cfgs[t]).value.payload == a.payload
  {
    var outs := Outcomes(pixels, cfgs);
    NumberedSound(cfgs, outs, k);
    var a := Discoveries(pixels, cfgs)[k];
    var t :| 0 <= t < |cfgs| && cfgs[t] == a.config && outs[t].Some?
      && outs[t].value.fileType == a.fileType && outs[t].value.payload == a.payload;
    assert outs[t] == Outcome(pixels, cfgs[t]);
  }

  /** The results of a prefix of the attempts are the prefix of the results. */
  lemma OutcomesPrefix(pixels: seq<Pixel>, cfgs: seq<Config>, t: nat)
    requires t <= |cfgs|
    ensures Outcomes(pixels, cfgs[..t]) == Outcomes(pixels, cfgs)[..t]
  {
  }

  /**
   * Whatever attempt t finds is a discovery, at the index that counts the
   * matching attempts before t, and with the number after it.
   */
  lemma DiscoveriesComplete(pixels: seq<Pixel>, cfgs: seq<Config>, t: nat)
    requires t < |cfgs| && Outcome(pixels, cfgs[t]).Some?
    ensures var f, k := Outcome(pixels, cfgs[t]).value, MatchCount(Outcomes(pixels, cfgs[..t]));
      && k < |Discoveries(pixels, cfgs)|
      && Discoveries(pixels, cfgs)[k] == Artifact(k + 1, cfgs[t], f.fileType, f.payload)
  {
    var outs := Outcomes(pixels, cfgs);
    OutcomesPrefix(pixels, cfgs, t);
    NumberedComplete(cfgs, outs, t);
  }

  /** Discoveries come in attempt order: an earlier matching attempt gets an earlier index. */
  lemma DiscoveriesInOrder(pixels: seq<Pixel>, cfgs: seq<Config>, t: nat, u: nat)
    requires t < u < |cfgs| && Outcome(pixels, cfgs[t]).Some?
    ensures MatchCount(Outcomes(pixels, cfgs[..t])) < MatchCount(Outcomes(pixels, cfgs[..u]))
  {
    var outs := Outcomes(pixels, cfgs);
    OutcomesPrefix(pixels, cfgs, t);
    OutcomesPrefix(pixels, cfgs, u);
    MatchCountGrows(outs, t, u);
  }

  /** The number of discoveries is the number of matching attempts. */
  lemma DiscoveriesCount(pixels: seq<Pixel>, cfgs: seq<Config>)
    ensures |Discoveries(pixels, cfgs)| == MatchCount(Outcomes(pixels, cfgs))
  {
    CountIsMatches(cfgs, Outcomes(pixels, cfgs));
  }

  /** Something is found exactly when some attempt matches. */
  lemma FoundIffSomeMatch(pixels: seq<Pixel>, cfgs: seq<Config>)
    ensures |Discoveries(pixels, cfgs)| > 0 <==> exists t :: 0 <= t < |cfgs| && Outcome(pixels, cfgs[t]).Some?
  {
    if |Discoveries(pixels, cfgs)| > 0 {
      DiscoveriesSound(pixels, cfgs, 0);
    }
    if t :| 0 <= t < |cfgs| && Outcome(pixels, cfgs[t]).Some? {
      DiscoveriesComplete(pixels, cfgs, t);
    }
  }

  /** A discovery is saved exactly when its write does not fail. */
  lemma {:induction false} SavedMembers(ds: seq<Artifact>, writeFails: set<nat>)
    ensures forall a :: a in Saved(ds, writeFails) <==> a in ds && a.number !in writeFails
  {
    if ds != [] {
      SavedMembers(ds[..|ds| - 1], writeFails);
      assert ds == ds[..|ds| - 1] + [ds[|ds| - 1]];
    }
  }

  /** Failed writes only ever remove files: never more saved than discovered. */
  lemma {:induction false} SavedAtMost(ds: seq<Artifact>, writeFails: set<nat>)
    ensures |Saved(ds, writeFails)| <= |ds|
  {
    if ds != [] {
      SavedAtMost(ds[..|ds| - 1], writeFails);
    }
  }

  /** The state `main` keeps across attempts, given the results so far. */
  predicate Books(writeFails: set<nat>, tried: seq<Config>, outs: seq<Option<Found>>,
                  found: bool, count: nat, saved: seq<Artifact>)
  {
    && |outs| == |tried|
    && count == |Numbered(tried, outs)|
    && (found <==> count > 0)
    && saved == Saved(Numbered(tried, outs), writeFails)
  }

  /**
   * The bookkeeping after an attempt with result r: log it, and on a match
   * count it and write its payload unless the write fails; a failed write
   * is still counted.
   */
  method Tally(writeFails: set<nat>, cfg: Config, r: Option<Found>, tried: seq<Config>,
                ghost outs: seq<Option<Found>>, found: bool, count: nat, saved: seq<Artifact>)
    returns (tried': seq<Config>, ghost outs': seq<Option<Found>>, found': bool, count': nat, saved': seq<Artifact>)
    requires Books(writeFails, tried, outs, found, count, saved)
    ensures tried' == tried + [cfg] && outs' == outs + [r]
    ensures Books(writeFails, tried', outs', found', count', saved')
  {
    NumberedSnoc(tried, outs, cfg, r);
    tried', outs', found', count', saved' := tried + [cfg], outs + [r], found, count, saved;
    if r.Some? {
      var a := Artifact(count + 1, cfg, r.value.fileType, r.value.payload);
      SavedSnoc(Numbered(tried, outs), a, writeFails);
      found' := true;
      count' := count + 1;
      if count' !in writeFails {
        saved' := saved + [a];
      }
    }
  }

  /** The body of the innermost loop of `main`: run the attempt, then do the bookkeeping. */
  method Record(pixels: seq<Pixel>, writeFails: set<nat>, cfg: Config, tried: seq<Config>,
                ghost outs: seq<Option<Found>>, found: bool, count: nat, saved: seq<Artifact>)
    returns (tried': seq<Config>, ghost outs': seq<Option<Found>>, found': bool, count': nat, saved': seq<Artifact>)
    requires Results(pixels, tried, outs)
    requires Books(writeFails, tried, outs, found, count, saved)
    ensures tried' == tried + [cfg]
    ensures Results(pixels, tried', outs')
    ensures Books(writeFails, tried', outs', found', count', saved')
  {
    var r := Attempt(pixels, cfg);
    ResultsExtend(pixels, tried, outs, cfg, r);
    tried', outs', found', count', saved' := Tally(writeFails, cfg, r, tried, outs, found, count, saved);
  }

  /** The loops of `main` for one bit depth n: 7 channel configs, 2 bit orders, 2 flows. */
  method SearchDepth(pixels: seq<Pixel>, writeFails: set<nat>, n: nat, tried: seq<Config>,
                     ghost outs: seq<Option<Found>>, found: bool, count: nat, saved: seq<Artifact>)
    returns (tried': seq<Config>, ghost outs': seq<Option<Found>>, found': bool, count': nat, saved': seq<Artifact>)
    requires Results(pixels, tried, outs)
    requires Books(writeFails, tried, outs, found, count, saved)
    ensures tried' == tried + ChannelBlock(n, 7)
    ensures Results(pixels, tried', outs')
    ensures Books(writeFails, tried', outs', found', count', saved')
  {
    tried', outs', found', count', saved' := tried, outs, found, count, saved;
    for c := 0 to |ChannelConfigs|
      invariant tried' == tried + ChannelBlock(n, c)
      invariant Results(pixels, tried', outs')
      invariant Books(writeFails, tried', outs', found', count', saved')
    {
      ghost var channelStart := tried';
      for l := 0 to |BitOrders|
        invariant tried' == channelStart + OrderBlock(n, c, l)
        invariant Results(pixels, tried', outs')
        invariant Books(writeFails, tried', outs', found', count', saved')
      {
        ghost var orderStart := tried';
        for f := 0 to |Flows|
          invariant tried' == orderStart + FlowBlock(n, c, l, f)
          invariant Results(pixels, tried', outs')
          invariant Books(writeFails, tried', outs', found', count', saved')
        {
          var cfg := Config(n, ChannelConfigs[c], BitOrders[l], Flows[f]);
          AppendAssoc(orderStart, FlowBlock(n, c, l, f), [cfg]);
          tried', outs', found', count', saved' := Record(pixels, writeFails, cfg, tried', outs', found', count', saved');
        }
        AppendAssoc(channelStart, OrderBlock(n, c, l), FlowBlock(n, c, l, 2));
      }
      AppendAssoc(tried, ChannelBlock(n, c), OrderBlock(n, c, 2));
    }
  }

  /**
   * `main`: tried is the sequence of per-attempt progress lines, count is
   * `files_found_count`, found is `found_something`, saved the files written.
   */
  method RunSearch(pixels: seq<Pixel>, maxBits: nat, writeFails: set<nat>)
    returns (tried: seq<Config>, found: bool, count: nat, saved: seq<Artifact>)
    ensures tried == Attempts(maxBits)
    ensures count == |Discoveries(pixels, tried)| == MatchCount(Outcomes(pixels, tried))
    ensures found <==> count > 0
    ensures saved == Saved(Discoveries(pixels, tried), writeFails)
  {
    tried, found, count, saved := [], false, 0, [];
    ghost var outs: seq<Option<Found>> := [];
    for n := 1 to maxBits + 1
      invariant tried == Attempts(n - 1)
      invariant Results(pixels, tried, outs)
      invariant Books(writeFails, tried, outs, found, count, saved)
    {
      tried, outs, found, count, saved := SearchDepth(pixels, writeFails, n, tried, outs, found, count, saved);
    }
    ResultsAreOutcomes(pixels, tried, outs);
    DiscoveriesCount(pixels, tried);
  }
}
