/** Log levels: their names (LogLevel.cc) and their saturating addition (LogLevel.h). */
module LogLevels {
  import opened Options

  /** A level is any 32-bit number. */
  const WORD32: nat := 0x1_0000_0000
  type LogLevel = n: nat | n < WORD32

  const UNINITIALIZED: LogLevel := 0
  const NONE: LogLevel := 1
  const DEBUG: LogLevel := 1000
  const DBG: LogLevel := 1000
  const DEBUG0: LogLevel := 1999
  const INFO: LogLevel := 2000
  const INFO0: LogLevel := 2999
  const WARN: LogLevel := 3000
  const ERR: LogLevel := 4000
  const CRITICAL: LogLevel := 5000
  const FATAL: LogLevel := 0x7fff_ffff
  const MAX_LEVEL: LogLevel := 0x7fff_ffff

  datatype NumberedLevelInfo = NumberedLevelInfo(min: LogLevel, max: LogLevel, upperPrefix: string)

  const NUMBERED_LOG_LEVELS: seq<NumberedLevelInfo> :=
    [NumberedLevelInfo(DEBUG, DEBUG0, "DBG"), NumberedLevelInfo(INFO, INFO0, "INFO")]

  function DigitChar(d: nat): char
    requires d < 10
  {
    "0123456789"[d]
  }

  /** Decimal rendering, without leading zeros. */
  function Decimal(n: nat): string {
    if n < 10 then [DigitChar(n)] else Decimal(n / 10) + [DigitChar(n % 10)]
  }

  function DigitOf(c: char): nat {
    if '0' <= c <= '9' then c as nat - '0' as nat else 0
  }

  function ReadDecimal(s: string): nat {
    if s == [] then 0 else 10 * ReadDecimal(s[..|s| - 1]) + DigitOf(s[|s| - 1])
  }

  lemma {:induction false} DecimalReadsBack(n: nat)
    ensures Decimal(n) != [] && ReadDecimal(Decimal(n)) == n
    ensures forall i :: 0 <= i < |Decimal(n)| ==> '0' <= Decimal(n)[i] <= '9'
    ensures Decimal(n)[0] == '0' ==> n == 0 && |Decimal(n)| == 1
  {
    if n >= 10 {
      DecimalReadsBack(n / 10);
      assert Decimal(n)[..|Decimal(n)| - 1] == Decimal(n / 10);
      assert DigitOf(DigitChar(n % 10)) == n % 10;
    } else {
      assert Decimal(n)[..0] == [];
      assert DigitOf(DigitChar(n)) == n;
    }
  }

  /** The scan of the table: the first band that contains the level numbers it from the top down. */
  function NumberedName(level: LogLevel, table: seq<NumberedLevelInfo>): Option<string> {
    if table == [] then None
    else if table[0].min < level <= table[0].max then Some(table[0].upperPrefix + Decimal(table[0].max - level))
    else NumberedName(level, table[1..])
  }

  function LogLevelToString(level: LogLevel): string {
    if level == UNINITIALIZED then "UNINITIALIZED"
    else if level == NONE then "NONE"
    else if level == DBG then "DEBUG"
    else if level == INFO then "INFO"
    else if level == WARN then "WARN"
    else if level == ERR then "ERR"
    else if level == CRITICAL then "CRITICAL"
    else if level == FATAL then "FATAL"
    else match NumberedName(level, NUMBERED_LOG_LEVELS)
      case Some(name) => name
      case None => "LogLevel(" + Decimal(level) + ")"
  }

  /** The name of every level, in numbers: eight levels have names of their own; between 1000 and 1999 and
      between 2000 and 2999 they are numbered from the top down; the rest are shown as they are. */
  lemma NameHasShape(level: LogLevel)
    ensures var name := LogLevelToString(level);
            if level == 0 then name == "UNINITIALIZED"
            else if level == 1 then name == "NONE"
            else if level == 1000 then name == "DEBUG"
            else if level == 2000 then name == "INFO"
            else if level == 3000 then name == "WARN"
            else if level == 4000 then name == "ERR"
            else if level == 5000 then name == "CRITICAL"
            else if level == 0x7fff_ffff then name == "FATAL"
            else if 1000 < level <= 1999 then name == "DBG" + Decimal(1999 - level)
            else if 2000 < level <= 2999 then name == "INFO" + Decimal(2999 - level)
            else name == "LogLevel(" + Decimal(level) + ")"
  {
    var first, second := NUMBERED_LOG_LEVELS[0], NUMBERED_LOG_LEVELS[1];
    assert NUMBERED_LOG_LEVELS[1..] == [second] && [second][1..] == [];
    assert NumberedName(level, []) == None;
    assert NumberedName(level, [second]) ==
      if INFO < level <= INFO0 then Some("INFO" + Decimal(INFO0 - level)) else None;
  }

  /** Reads a name back, as a proof that names are unambiguous. */
  function LevelNamed(name: string): nat {
    if name == "UNINITIALIZED" then UNINITIALIZED
    else if name == "NONE" then NONE
    else if name == "DEBUG" then DBG
    else if name == "INFO" then INFO
    else if name == "WARN" then WARN
    else if name == "ERR" then ERR
    else if name == "CRITICAL" then CRITICAL
    else if name == "FATAL" then FATAL
    else if |name| > 3 && name[..3] == "DBG" then
      var d := ReadDecimal(name[3..]); if d <= DEBUG0 then DEBUG0 - d else 0
    else if |name| > 4 && name[..4] == "INFO" then
      var d := ReadDecimal(name[4..]); if d <= INFO0 then INFO0 - d else 0
    else if |name| > 10 then ReadDecimal(name[9..|name| - 1])
    else 0
  }

  lemma DbgReadsBack(digits: string)
    requires digits != []
    ensures var d := ReadDecimal(digits); LevelNamed("DBG" + digits) == if d <= DEBUG0 then DEBUG0 - d else 0
  {
    var name := "DBG" + digits;
    assert name[..3] == "DBG" && name[3..] == digits;
    assert name[0] == 'D' && name[1] == 'B';
  }

  lemma InfoReadsBack(digits: string)
    requires digits != []
    ensures var d := ReadDecimal(digits); LevelNamed("INFO" + digits) == if d <= INFO0 then INFO0 - d else 0
  {
    var name := "INFO" + digits;
    assert name[..4] == "INFO" && name[4..] == digits;
    assert name[0] == 'I' && name[..3][0] == 'I' && |name| > 4;
  }

  lemma FallbackReadsBack(digits: string)
    requires digits != []
    ensures LevelNamed("LogLevel(" + digits + ")") == ReadDecimal(digits)
  {
    var name := "LogLevel(" + digits + ")";
    assert name[9..|name| - 1] == digits;
    assert name[0] == 'L' && name[..3][0] == 'L' && name[..4][0] == 'L' && |name| > 10;
  }

  predicate HasOwnName(level: LogLevel) {
    level in {UNINITIALIZED, NONE, DBG, INFO, WARN, ERR, CRITICAL, FATAL}
  }

  lemma OwnNameReadsBack(level: LogLevel)
    requires HasOwnName(level)
    ensures LevelNamed(LogLevelToString(level)) == level
  {
  }

  lemma NumberReadsBack(level: LogLevel)
    requires !HasOwnName(level)
    ensures LevelNamed(LogLevelToString(level)) == level
  {
    NameHasShape(level);
    var name := LogLevelToString(level);
    if DEBUG < level <= DEBUG0 {
      DecimalReadsBack(DEBUG0 - level);
      assert name == "DBG" + Decimal(DEBUG0 - level);
      DbgReadsBack(Decimal(DEBUG0 - level));
    } else if INFO < level <= INFO0 {
      DecimalReadsBack(INFO0 - level);
      assert name == "INFO" + Decimal(INFO0 - level);
      InfoReadsBack(Decimal(INFO0 - level));
    } else {
      DecimalReadsBack(level);
      assert name == "LogLevel(" + Decimal(level) + ")";
      FallbackReadsBack(Decimal(level));
    }
  }

  /** Every level can be recovered from its name. */
  lemma NameReadsBack(level: LogLevel)
    ensures LevelNamed(LogLevelToString(level)) == level
  {
    if HasOwnName(level) {
      OwnNameReadsBack(level);
    } else {
      NumberReadsBack(level);
    }
  }

  /** No two of the 2^32 levels share a name. */
  lemma NamesAreInjective(a: LogLevel, b: LogLevel)
    requires LogLevelToString(a) == LogLevelToString(b)
    ensures a == b
  {
    NameReadsBack(a);
    NameReadsBack(b);
  }

  /** Addition, with 32-bit wrap-around before the comparison. */
  function Plus(level: LogLevel, value: LogLevel): LogLevel {
    var sum := (level + value) % WORD32;
    if sum > MAX_LEVEL then MAX_LEVEL else sum
  }

  function Saturated(n: nat): (level: LogLevel)
    ensures level <= n && level <= 0x7fff_ffff && (level == n || level == 0x7fff_ffff)
  {
    if n < MAX_LEVEL then n else MAX_LEVEL
  }

  /** It saturates exactly when the sum does not wrap around past the maximum. */
  lemma PlusSaturatesIff(level: LogLevel, value: LogLevel)
    ensures Plus(level, value) == Saturated(level + value)
       <==> level + value < WORD32 || level + value >= WORD32 + MAX_LEVEL
  {
    if level + value >= WORD32 {
      assert (level + value) % WORD32 == level + value - WORD32;
    }
  }

  /** An addend is safe for every level of the scale exactly up to 2^31. */
  lemma SafeAddendsAreExact(value: LogLevel)
    ensures (forall level: LogLevel :: level <= MAX_LEVEL ==> Plus(level, value) == Saturated(level + value))
       <==> value <= 0x8000_0000
  {
    if value <= 0x8000_0000 {
      forall level: LogLevel | level <= MAX_LEVEL
        ensures Plus(level, value) == Saturated(level + value)
      {
        PlusSaturatesIff(level, value);
      }
    } else {
      PlusSaturatesIff(MAX_LEVEL, value);
    }
  }

  function PlusAll(level: LogLevel, values: seq<LogLevel>): LogLevel
    decreases values
  {
    if values == [] then level else PlusAll(Plus(level, values[0]), values[1..])
  }

  function Sum(values: seq<LogLevel>): nat {
    if values == [] then 0 else values[0] + Sum(values[1..])
  }

  /** A sequence of additions comes to the sum, saturated once. */
  lemma {:induction false} PlusAllSaturates(level: LogLevel, values: seq<LogLevel>)
    requires level <= MAX_LEVEL && forall i :: 0 <= i < |values| ==> values[i] <= 0x8000_0000
    ensures PlusAll(level, values) == Saturated(level + Sum(values))
    decreases values
  {
    if values != [] {
      PlusSaturatesIff(level, values[0]);
      PlusAllSaturates(Plus(level, values[0]), values[1..]);
    }
  }

  lemma {:induction false} SumWithout(values: seq<LogLevel>, i: nat)
    requires i < |values|
    ensures Sum(values) == values[i] + Sum(values[..i] + values[i + 1..])
  {
    if i == 0 {
      assert values[..0] + values[1..] == values[1..];
    } else {
      SumWithout(values[1..], i - 1);
      assert (values[..i] + values[i + 1..])[1..] == values[1..][..i - 1] + values[1..][i..];
    }
  }

  lemma RemovedOne(values: seq<LogLevel>, i: nat)
    requires i < |values|
    ensures multiset(values[..i] + values[i + 1..]) == multiset(values) - multiset{values[i]}
  {
    assert values == values[..i] + [values[i]] + values[i + 1..];
  }

  lemma {:induction false} SumIgnoresOrder(xs: seq<LogLevel>, ys: seq<LogLevel>)
    requires multiset(xs) == multiset(ys)
    ensures Sum(xs) == Sum(ys)
  {
    if xs == [] {
      assert |multiset(ys)| == |ys|;
    } else {
      assert xs[0] in multiset(xs);
      var i := Find(ys, xs[0]);
      RemovedOne(xs, 0);
      RemovedOne(ys, i);
      assert xs[..0] + xs[1..] == xs[1..];
      SumIgnoresOrder(xs[1..], ys[..i] + ys[i + 1..]);
      SumWithout(ys, i);
    }
  }

  lemma Find(values: seq<LogLevel>, v: LogLevel) returns (i: nat)
    requires v in multiset(values)
    ensures i < |values| && values[i] == v
  {
    assert v in values;
    i :| 0 <= i < |values| && values[i] == v;
  }

  /** Neither the order nor the grouping of the additions matters. */
  lemma OrderAndGroupingDoNotMatter(level: LogLevel, xs: seq<LogLevel>, ys: seq<LogLevel>)
    requires level <= MAX_LEVEL && multiset(xs) == multiset(ys)
    requires forall i :: 0 <= i < |xs| ==> xs[i] <= 0x8000_0000
    ensures PlusAll(level, xs) == PlusAll(level, ys)
    ensures Sum(xs) <= 0x8000_0000 ==> PlusAll(level, xs) == Plus(level, Sum(xs))
  {
    forall i | 0 <= i < |ys|
      ensures ys[i] <= 0x8000_0000
    {
      assert ys[i] in multiset(xs);
    }
    PlusAllSaturates(level, xs);
    PlusAllSaturates(level, ys);
    SumIgnoresOrder(xs, ys);
    if Sum(xs) <= 0x8000_0000 {
      PlusSaturatesIff(level, Sum(xs));
    }
  }

  function Concat(groups: seq<seq<LogLevel>>): seq<LogLevel> {
    if groups == [] then [] else groups[0] + Concat(groups[1..])
  }

  /** What the groups come to, each added up on its own. */
  function Totals(groups: seq<seq<LogLevel>>): seq<LogLevel>
    requires forall k :: 0 <= k < |groups| ==> Sum(groups[k]) <= 0x8000_0000
  {
    seq(|groups|, k requires 0 <= k < |groups| => Sum(groups[k]))
  }

  lemma {:induction false} SumOfConcat(xs: seq<LogLevel>, ys: seq<LogLevel>)
    ensures Sum(xs + ys) == Sum(xs) + Sum(ys)
  {
    if xs == [] {
      assert xs + ys == ys;
    } else {
      assert (xs + ys)[1..] == xs[1..] + ys;
      SumOfConcat(xs[1..], ys);
    }
  }

  lemma {:induction false} PartsAreBounded(xs: seq<LogLevel>, i: nat)
    requires i < |xs|
    ensures xs[i] <= Sum(xs)
  {
    if i > 0 {
      PartsAreBounded(xs[1..], i - 1);
    }
  }

  lemma {:induction false} SumOfGroups(groups: seq<seq<LogLevel>>)
    requires forall k :: 0 <= k < |groups| ==> Sum(groups[k]) <= 0x8000_0000
    ensures Sum(Concat(groups)) == Sum(Totals(groups))
    ensures forall i :: 0 <= i < |Concat(groups)| ==> Concat(groups)[i] <= 0x8000_0000
  {
    if groups != [] {
      var rest := groups[1..];
      SumOfGroups(rest);
      SumOfConcat(groups[0], Concat(rest));
      assert Totals(groups)[1..] == Totals(rest);
      forall i | 0 <= i < |Concat(groups)|
        ensures Concat(groups)[i] <= 0x8000_0000
      {
        if i < |groups[0]| {
          PartsAreBounded(groups[0], i);
        } else {
          assert Concat(groups)[i] == Concat(rest)[i - |groups[0]|];
        }
      }
    }
  }

  /** However the additions are grouped: adding the groups, each added up first, is adding one by one. */
  lemma GroupingDoesNotMatter(level: LogLevel, groups: seq<seq<LogLevel>>)
    requires level <= MAX_LEVEL
    requires forall k :: 0 <= k < |groups| ==> Sum(groups[k]) <= 0x8000_0000
    ensures PlusAll(level, Totals(groups)) == PlusAll(level, Concat(groups))
  {
    SumOfGroups(groups);
    PlusAllSaturates(level, Concat(groups));
    PlusAllSaturates(level, Totals(groups));
  }

  lemma {:induction false} PlusOneMore(level: LogLevel, values: seq<LogLevel>, v: LogLevel)
    ensures PlusAll(level, values + [v]) == Plus(PlusAll(level, values), v)
    decreases values
  {
    if values == [] {
      assert values + [v] == [v];
    } else {
      assert (values + [v])[1..] == values[1..] + [v];
      PlusOneMore(Plus(level, values[0]), values[1..], v);
    }
  }

  /** A variable holding a level. */
  class LevelVariable {
    var level: LogLevel

    constructor (level: LogLevel)
      ensures this.level == level
    {
      this.level := level;
    }

    /** `operator+=`. It saturates exactly when the sum does not wrap around past the maximum, and so for any
        level up to the maximum and any addend up to 2^31. */
    method PlusAssign(value: LogLevel)
      modifies this
      ensures level == (old(level) + value) % 0x1_0000_0000 < 0x7fff_ffff
           || level == 0x7fff_ffff <= (old(level) + value) % 0x1_0000_0000
      ensures level == Plus(old(level), value)
      ensures level == Saturated(old(level) + value)
         <==> old(level) + value < WORD32 || old(level) + value >= WORD32 + MAX_LEVEL
      ensures old(level) <= 0x7fff_ffff && value <= 0x8000_0000 ==>
                && old(level) <= level <= 0x7fff_ffff
                && (level == old(level) + value || level == 0x7fff_ffff <= old(level) + value)
    {
      PlusSaturatesIff(level, value);
      level := Plus(level, value);
    }

    /** A caller that adds one value after the other. */
    method PlusAssignAll(values: seq<LogLevel>)
      modifies this
      ensures level == PlusAll(old(level), values)
      ensures old(level) <= MAX_LEVEL && (forall i :: 0 <= i < |values| ==> values[i] <= 0x8000_0000)
          ==> level == if old(level) + Sum(values) < 0x7fff_ffff then old(level) + Sum(values) else 0x7fff_ffff
    {
      ghost var start := level;
      for n := 0 to |values|
        invariant level == PlusAll(start, values[..n])
      {
        PlusAssign(values[n]);
        PlusOneMore(start, values[..n], values[n]);
        assert values[..n + 1] == values[..n] + [values[n]];
      }
      assert values[..|values|] == values;
      if start <= MAX_LEVEL && forall i :: 0 <= i < |values| ==> values[i] <= 0x8000_0000 {
        PlusAllSaturates(start, values);
      }
    }
  }
}
