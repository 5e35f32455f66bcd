/**
 The adsorption-time table of the effusion process: a process-wide map from
 the composite key `partZ*1000 + matA` to a mean residence time, filled by
 `SetAdsorptionTime` and by the string command `"pZ;mZ;time"` that
 `LoadAdsorptionTime` parses.
 */
module Effusion {
  import opened Conversions
  import opened Tokenizer

  /** CLHEP's `nanosecond`; the nanosecond is CLHEP's base unit of time. */
  const Nanosecond: real := 1.0

  /** The table as a value: composite key to residence time. */
  type Table = map<int, real>

  /**
   The composite key of a (particle Z, material A) pair; while `matA` stays
   below 1000 the key gives back both numbers.
   */
  function GetIndex(partZ: int, matA: int): (key: int)
    ensures 0 <= matA < 1000 ==> key / 1000 == partZ && key % 1000 == matA
  {
    partZ * 1000 + matA
  }

  /** While `matA` stays below 1000, distinct pairs have distinct keys. */
  lemma IndexInjective(p1: int, m1: int, p2: int, m2: int)
    requires 0 <= m1 < 1000 && 0 <= m2 < 1000
    ensures GetIndex(p1, m1) == GetIndex(p2, m2) <==> p1 == p2 && m1 == m2
  {
  }

  /** From `matA` = 1000 on, keys collide: (p, m + 1000) shares its key with (p + 1, m). */
  lemma IndexCollides(p: int, m: int)
    ensures GetIndex(p, m + 1000) == GetIndex(p + 1, m)
    ensures (p, m + 1000) != (p + 1, m)
  {
  }

  /** `unordered_map::erase(key)`. */
  function Erase(m: Table, key: int): (r: Table)
    ensures r.Keys == m.Keys - {key}
    ensures forall k :: k in r ==> r[k] == m[k]
  {
    m - {key}
  }

  /** `unordered_map::insert({key, v})`: nothing happens when the key is present. */
  function Insert(m: Table, key: int, v: real): (r: Table)
    ensures r.Keys == m.Keys + {key}
    ensures r[key] == if key in m then m[key] else v
    ensures forall k :: k in m && k != key ==> r[k] == m[k]
  {
    if key in m then m else m[key := v]
  }

  /** Inserting over an existing key keeps the old value: the erase is what makes the setter overwrite. */
  lemma InsertKeepsExisting(m: Table, key: int, v: real)
    requires key in m
    ensures Insert(m, key, v) == m
  {
  }

  /**
   The table after `SetAdsorptionTime(partZ, matZ, value)`: erase the key if it
   is present, then insert `value` nanoseconds under it.
   */
  function WithAdsorptionTime(m: Table, partZ: int, matZ: int, value: real): (r: Table)
    ensures r.Keys == m.Keys + {GetIndex(partZ, matZ)}
    ensures r[GetIndex(partZ, matZ)] == value * Nanosecond
    ensures forall k :: k in m && k != GetIndex(partZ, matZ) ==> r[k] == m[k]
  {
    var key := GetIndex(partZ, matZ);
    Insert(if key in m then Erase(m, key) else m, key, value * Nanosecond)
  }

  /** Setting the same pair twice leaves the second value, as one entry. */
  lemma SetTwiceKeepsSecond(m: Table, partZ: int, matZ: int, v1: real, v2: real)
    ensures WithAdsorptionTime(WithAdsorptionTime(m, partZ, matZ, v1), partZ, matZ, v2)
         == WithAdsorptionTime(m, partZ, matZ, v2)
  {
  }

  /** The table grows by one entry exactly when the key was absent. */
  lemma SetSize(m: Table, partZ: int, matZ: int, value: real)
    ensures |WithAdsorptionTime(m, partZ, matZ, value)|
         == |m| + (if GetIndex(partZ, matZ) in m then 0 else 1)
  {
  }

  /** The table after one `SetAdsorptionTime` call per value, in order, all for one pair. */
  function SetEach(m: Table, partZ: int, matZ: int, values: seq<real>): Table
    decreases |values|
  {
    if values == [] then m
    else SetEach(WithAdsorptionTime(m, partZ, matZ, values[0]), partZ, matZ, values[1..])
  }

  /**
   Any number of calls for one pair leave a single entry for it, holding the
   last value; starting from an empty table, the table has size 1.
   */
  lemma {:induction false} SetEachKeepsLast(m: Table, partZ: int, matZ: int, values: seq<real>)
    requires values != []
    ensures SetEach(m, partZ, matZ, values) == WithAdsorptionTime(m, partZ, matZ, values[|values| - 1])
    ensures m == map[] ==> |SetEach(m, partZ, matZ, values)| == 1
    decreases |values|
  {
    var m1 := WithAdsorptionTime(m, partZ, matZ, values[0]);
    if |values| > 1 {
      SetEachKeepsLast(m1, partZ, matZ, values[1..]);
      SetTwiceKeepsSecond(m, partZ, matZ, values[0], values[|values| - 1]);
    }
    if m == map[] {
      SetSize(m, partZ, matZ, values[|values| - 1]);
    }
  }

  /**
   After any non-empty run of calls for one pair, the table has a single entry
   exactly when it held no key other than that pair's before.
   */
  lemma SetEachSingleEntry(m: Table, partZ: int, matZ: int, values: seq<real>)
    requires values != []
    ensures |SetEach(m, partZ, matZ, values)| == 1 <==> m.Keys <= {GetIndex(partZ, matZ)}
  {
    SetEachKeepsLast(m, partZ, matZ, values);
    SetSingleEntry(m, partZ, matZ, values[|values| - 1]);
  }

  /** One call leaves a single entry exactly when no other key was present. */
  lemma SetSingleEntry(m: Table, partZ: int, matZ: int, value: real)
    ensures |WithAdsorptionTime(m, partZ, matZ, value)| == 1 <==> m.Keys <= {GetIndex(partZ, matZ)}
  {
    var r := WithAdsorptionTime(m, partZ, matZ, value);
    assert |r| == |r.Keys|;
    SingletonUnion(m.Keys, GetIndex(partZ, matZ));
  }

  lemma SingletonUnion(ks: set<int>, key: int)
    ensures |ks + {key}| == 1 <==> ks <= {key}
  {
    if ks <= {key} {
      assert ks + {key} == {key};
    } else {
      var rest := ks - {key};
      assert rest != {};
      assert ks + {key} == rest + {key};
      assert |rest + {key}| == |rest| + 1;
    }
  }

  /** A decoded configuration command. */
  datatype Command = Command(partZ: int, matZ: int, time: real)

  /**
   How `LoadAdsorptionTime` ends: it returns without effect, it installs a
   command, or a conversion throws.
   */
  datatype LoadOutcome = Ignored | Loaded(command: Command) | Rejected(error: ConversionError)

  /**
   `SetAdsorptionTime(stoi(t0), stoi(t1), stof(t2))` up to the call: any
   conversion that throws keeps the setter from being reached. The C++ order of
   evaluating the three arguments is unspecified; the first failing token is
   reported here.
   */
  function ConvertTokens(t0: string, t1: string, t2: string): (r: LoadOutcome)
    ensures r != Ignored
    ensures r.Rejected? <==> ParseInt(t0).Err? || ParseInt(t1).Err? || ParseFloat(t2).Err?
    ensures r.Rejected? ==>
              r.error == (if ParseInt(t0).Err? then ParseInt(t0).error
                          else if ParseInt(t1).Err? then ParseInt(t1).error
                          else ParseFloat(t2).error)
    ensures r.Loaded? ==>
              r.command == Command(ParseInt(t0).value, ParseInt(t1).value, ParseFloat(t2).value)
  {
    match (ParseInt(t0), ParseInt(t1), ParseFloat(t2))
    case (Ok(p), Ok(z), Ok(t)) => Loaded(Command(p, z, t))
    case (Err(e), _, _) => Rejected(e)
    case (_, Err(e), _) => Rejected(e)
    case (_, _, Err(e)) => Rejected(e)
  }

  /** What `LoadAdsorptionTime(s)` does with its command string. */
  function ParseCommand(s: string): (r: LoadOutcome)
    ensures r == Ignored <==> |Split(s)| < 3
  {
    if s == "" then Ignored
    else
      var tokens := Split(s);
      if |tokens| < 3 then Ignored else ConvertTokens(tokens[0], tokens[1], tokens[2])
  }

  /** The table after `LoadAdsorptionTime(s)` returns or throws. */
  function LoadEffect(m: Table, s: string): (r: Table)
    ensures !ParseCommand(s).Loaded? ==> r == m
    ensures ParseCommand(s).Loaded? ==>
      var c := ParseCommand(s).command;
      var key := GetIndex(c.partZ, c.matZ);
      && r.Keys == m.Keys + {key}
      && r[key] == c.time * Nanosecond
      && forall k :: k in m && k != key ==> r[k] == m[k]
  {
    match ParseCommand(s)
    case Loaded(c) => WithAdsorptionTime(m, c.partZ, c.matZ, c.time)
    case _ => m
  }

  /** The empty command is ignored. */
  lemma LoadEmptyIgnored(m: Table)
    ensures ParseCommand("") == Ignored && LoadEffect(m, "") == m
  {
  }

  /**
   A command is rejected exactly when it has three tokens and one of the three
   conversions fails; the setter is then never reached.
   */
  lemma ParseCommandRejected(s: string)
    ensures ParseCommand(s).Rejected? <==>
      s != "" && |Split(s)| >= 3 &&
      (ParseInt(Split(s)[0]).Err? || ParseInt(Split(s)[1]).Err? || ParseFloat(Split(s)[2]).Err?)
  {
  }

  /** A command with fewer than two delimiters is ignored and leaves the table as it was. */
  lemma LoadNeedsTwoDelimiters(m: Table, s: string)
    requires DelimiterCount(s) < 2
    ensures ParseCommand(s) == Ignored && LoadEffect(m, s) == m
  {
    if s != [] {
      SplitCount(s);
    }
  }

  /** Only the first three tokens matter; anything after the third delimiter is ignored. */
  lemma LoadReadsFirstThreeTokens(t0: string, t1: string, t2: string, rest: string)
    requires Delimiter !in t0 && Delimiter !in t1 && Delimiter !in t2
    ensures ParseCommand(t0 + ";" + t1 + ";" + t2 + ";" + rest) == ConvertTokens(t0, t1, t2)
  {
    var s := t0 + ";" + t1 + ";" + t2 + ";" + rest;
    SplitThree(t0, t1, t2, rest);
    var tokens := Split(s);
    assert tokens[..3] == [t0, t1, t2];
    assert tokens[0] == t0 && tokens[1] == t1 && tokens[2] == t2;
    assert s != "";
  }

  /**
   A command of exactly three fields is decided by its fields, unless the last
   is empty: "a;b;" has two tokens and is ignored.
   */
  lemma LoadThreeFields(t0: string, t1: string, t2: string)
    requires Delimiter !in t0 && Delimiter !in t1 && Delimiter !in t2
    ensures t2 != "" ==> ParseCommand(t0 + ";" + t1 + ";" + t2) == ConvertTokens(t0, t1, t2)
    ensures t2 == "" ==> ParseCommand(t0 + ";" + t1 + ";" + t2) == Ignored
  {
    var s := t0 + ";" + t1 + ";" + t2;
    if t2 != "" {
      SplitSingle(t2);
    }
    SplitFirst(t1, t2);
    assert s == t0 + [Delimiter] + (t1 + ";" + t2);
    SplitFirst(t0, t1 + ";" + t2);
  }

  lemma IntToStringHasNoDelimiter(i: int)
    ensures Delimiter !in IntToString(i)
  {
  }

  /**
   A well-formed command "pZ;mZ;time", optionally followed by more fields,
   installs (pZ, mZ, time): the same as calling the setter directly.
   */
  lemma LoadWellFormed(m: Table, partZ: int, matZ: int, time: nat, rest: string)
    requires IntMin <= partZ <= IntMax && IntMin <= matZ <= IntMax
    requires rest == "" || rest[0] == Delimiter
    ensures ParseCommand(IntToString(partZ) + ";" + IntToString(matZ) + ";" + NatToString(time) + rest)
         == Loaded(Command(partZ, matZ, time as real))
    ensures LoadEffect(m, IntToString(partZ) + ";" + IntToString(matZ) + ";" + NatToString(time) + rest)
         == WithAdsorptionTime(m, partZ, matZ, time as real)
  {
    var t0, t1, t2 := IntToString(partZ), IntToString(matZ), NatToString(time);
    IntToStringHasNoDelimiter(partZ);
    IntToStringHasNoDelimiter(matZ);
    IntToStringHasNoDelimiter(time);
    LoadFieldsThenRest(t0, t1, t2, rest);
    ParseIntRoundTrip(partZ);
    ParseIntRoundTrip(matZ);
    ParseFloatOfNat(time);
  }

  /**
   Three fields, the last non-empty, followed by nothing or by a delimiter and
   anything: the command is decided by the three fields.
   */
  lemma LoadFieldsThenRest(t0: string, t1: string, t2: string, rest: string)
    requires Delimiter !in t0 && Delimiter !in t1 && Delimiter !in t2 && t2 != ""
    requires rest == "" || rest[0] == Delimiter
    ensures ParseCommand(t0 + ";" + t1 + ";" + t2 + rest) == ConvertTokens(t0, t1, t2)
  {
    var s := t0 + ";" + t1 + ";" + t2 + rest;
    if rest == "" {
      assert s == t0 + ";" + t1 + ";" + t2;
      LoadThreeFields(t0, t1, t2);
    } else {
      assert s == t0 + ";" + t1 + ";" + t2 + ";" + rest[1..];
      LoadReadsFirstThreeTokens(t0, t1, t2, rest[1..]);
    }
  }

  /** "6;14;120" installs the same entry as `SetAdsorptionTime(6, 14, 120)`. */
  lemma LoadExampleInstalls(m: Table)
    ensures LoadEffect(m, "6;14;120") == WithAdsorptionTime(m, 6, 14, 120.0)
  {
    assert NatToString(1) == "1";
    assert NatToString(12) == "12";
    assert NatToString(120) == "120";
    assert NatToString(14) == "14";
    assert IntToString(6) == "6" && IntToString(14) == "14";
    var s := IntToString(6) + ";" + IntToString(14) + ";" + NatToString(120) + "";
    assert s == "6;14;120";
    LoadWellFormed(m, 6, 14, 120, "");
  }

  /** "6;14" has only two fields and is ignored. */
  lemma LoadExampleTooShort(m: Table)
    ensures ParseCommand("6;14") == Ignored && LoadEffect(m, "6;14") == m
  {
  }

  /** "x;14;120" fails in `stoi` and installs nothing. */
  lemma LoadExampleRejected(m: Table)
    ensures ParseCommand("x;14;120") == Rejected(InvalidArgument) && LoadEffect(m, "x;14;120") == m
  {
  }

  /** The part of the effusion process that holds the adsorption-time table. */
  class EffusionProcess {
    var adsorptionTimeMap: Table

    /**
     Overwrites the entry for (partZ, matZ) with `value` nanoseconds; every
     other entry is kept.
     */
    method SetAdsorptionTime(partZ: int, matZ: int, value: real)
      modifies this`adsorptionTimeMap
      ensures adsorptionTimeMap == WithAdsorptionTime(old(adsorptionTimeMap), partZ, matZ, value)
      ensures adsorptionTimeMap.Keys == old(adsorptionTimeMap).Keys + {GetIndex(partZ, matZ)}
      ensures adsorptionTimeMap[GetIndex(partZ, matZ)] == value * Nanosecond
      ensures forall k :: k in old(adsorptionTimeMap) && k != GetIndex(partZ, matZ) ==>
        adsorptionTimeMap[k] == old(adsorptionTimeMap)[k]
    {
      var key := GetIndex(partZ, matZ);
      if key in adsorptionTimeMap {
        adsorptionTimeMap := Erase(adsorptionTimeMap, key);
      }
      adsorptionTimeMap := Insert(adsorptionTimeMap, key, value * Nanosecond);
    }

    /**
     Parses "pZ;mZ;time" and installs it; an empty command or one of fewer than
     three fields is ignored, and a conversion failure is reported as `Rejected`
     with the table untouched.
     */
    method LoadAdsorptionTime(s: string) returns (outcome: LoadOutcome)
      modifies this`adsorptionTimeMap
      ensures outcome == ParseCommand(s)
      ensures adsorptionTimeMap == LoadEffect(old(adsorptionTimeMap), s)
      ensures !outcome.Loaded? ==> adsorptionTimeMap == old(adsorptionTimeMap)
    {
      if s == "" {
        return Ignored;
      }
      var tokens := Tokenize(s);
      if |tokens| < 3 {
        return Ignored;
      }
      var partZ := ParseInt(tokens[0]);
      var matZ := ParseInt(tokens[1]);
      var time := ParseFloat(tokens[2]);
      if partZ.Err? {
        return Rejected(partZ.error);
      } else if matZ.Err? {
        return Rejected(matZ.error);
      } else if time.Err? {
        return Rejected(time.error);
      }
      SetAdsorptionTime(partZ.value, matZ.value, time.value);
      outcome := Loaded(Command(partZ.value, matZ.value, time.value));
    }
  }
}
