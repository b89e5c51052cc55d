/** The duration types of the `nn` namespace: `TimeSpanType`, a struct holding a signed
    64-bit count of nanoseconds, and `TimeSpan`, a class wrapping one `TimeSpanType` and
    delegating every operation to it.

    Both are C++ value types whose `+=` and `-=` change the object in place, so each is
    modelled as a Dafny class: the factories and the copying `+`/`-` allocate a fresh object
    (a fresh object is a new copy of the value), the getters and comparisons are functions
    that read the object, and `+=`/`-=` are methods that modify it. */
module Time {
  import opened Int64

  // Nanoseconds per unit: the getters' divisors, which `UnitScales` shows to be the
  // products of the factories' factors.
  const NS_PER_MICROSECOND: int := 1000
  const NS_PER_MILLISECOND: int := 1_000_000
  const NS_PER_SECOND: int := 1_000_000_000
  const NS_PER_MINUTE: int := 60_000_000_000
  const NS_PER_HOUR: int := 3_600_000_000_000
  const NS_PER_DAY: int := 86_400_000_000_000

  /** The units of the factories. Each factory but `FromNanoSeconds` multiplies its
      argument by `Factor(u)` and passes the product to the factory of `Finer(u)`. */
  datatype Unit = NanoSeconds | MicroSeconds | MilliSeconds | Seconds | Minutes | Hours | Days

  /** Position of a unit in the chain, counted from nanoseconds. */
  function Rank(u: Unit): nat {
    match u
    case NanoSeconds => 0
    case MicroSeconds => 1
    case MilliSeconds => 2
    case Seconds => 3
    case Minutes => 4
    case Hours => 5
    case Days => 6
  }

  /** The factory that `u`'s factory calls. */
  function Finer(u: Unit): (f: Unit)
    requires u != NanoSeconds
    ensures Rank(f) + 1 == Rank(u)
  {
    match u
    case MicroSeconds => NanoSeconds
    case MilliSeconds => MicroSeconds
    case Seconds => MilliSeconds
    case Minutes => Seconds
    case Hours => Minutes
    case Days => Hours
  }

  /** The `INT64_C` constant by which `u`'s factory multiplies. */
  function Factor(u: Unit): (k: int)
    requires u != NanoSeconds
    ensures k > 1
  {
    match u
    case MicroSeconds => 1000
    case MilliSeconds => 1000
    case Seconds => 1000
    case Minutes => 60
    case Hours => 60
    case Days => 24
  }

  /** Nanoseconds in one `u`: the product of the factors down the chain. */
  function NsPerUnit(u: Unit): (n: int)
    ensures n >= 1
    ensures u != NanoSeconds ==> n >= Factor(u)
    decreases Rank(u)
  {
    if u == NanoSeconds then 1 else Factor(u) * NsPerUnit(Finer(u))
  }

  /** No multiplication of the factory chain started at `u` with `v` overflows an `s64`:
      the condition under which the C++ factory is free of undefined behaviour. */
  predicate ChainFits(v: int, u: Unit)
    decreases Rank(u)
  {
    InS64(v) && (u == NanoSeconds || ChainFits(v * Factor(u), Finer(u)))
  }

  /** The chain of products avoids overflow exactly when the final nanosecond count fits:
      every intermediate product is at most the final one in magnitude. */
  lemma {:induction false} ChainFitsExactly(v: int, u: Unit)
    requires InS64(v)
    ensures ChainFits(v, u) <==> InS64(v * NsPerUnit(u))
    decreases Rank(u)
  {
    if u != NanoSeconds {
      var w := v * Factor(u);
      var rest := NsPerUnit(Finer(u));
      assert v * NsPerUnit(u) == w * rest;
      if InS64(w) {
        ChainFitsExactly(w, Finer(u));
      } else {
        MulSign(w, rest);
      }
    }
  }

  /** One step down the chain: the product handed to the finer factory fits, and so does
      the rest of the chain. */
  lemma ChainStep(v: int, u: Unit)
    requires u != NanoSeconds && ChainFits(v, u)
    ensures InS64(v * Factor(u)) && ChainFits(v * Factor(u), Finer(u))
  {
  }

  /** The per-unit constants are the products of the chain's factors. */
  lemma UnitScales()
    ensures NsPerUnit(MicroSeconds) == NS_PER_MICROSECOND
    ensures NsPerUnit(MilliSeconds) == NS_PER_MILLISECOND
    ensures NsPerUnit(Seconds) == NS_PER_SECOND
    ensures NsPerUnit(Minutes) == NS_PER_MINUTE
    ensures NsPerUnit(Hours) == NS_PER_HOUR
    ensures NsPerUnit(Days) == NS_PER_DAY
  {
  }

  /** `nn::TimeSpanType`: the field `_ns` is the whole state. */
  class TimeSpanType {
    var ns: s64

    /** The aggregate initialiser `{ ns }`, also used for the copy `TimeSpanType r(lhs)`. */
    constructor (ns: s64)
      ensures this.ns == ns
    {
      this.ns := ns;
    }

    // Factories. Each scales its argument by one factor and hands it to the next finer
    // factory, exactly as the source chains them. Each requires that no product of its
    // chain overflows; by `ChainFitsExactly` that is the same as the final count fitting.

    static method FromNanoSeconds(ns: s64) returns (r: TimeSpanType)
      ensures fresh(r) && r.ns == ns
      ensures r.GetNanoSeconds() == ns
    {
      r := new TimeSpanType(ns);
    }

    static method FromMicroSeconds(us: s64) returns (r: TimeSpanType)
      requires ChainFits(us, MicroSeconds)
      ensures fresh(r) && r.ns == us * NS_PER_MICROSECOND
      ensures r.GetMicroSeconds() == us
    {
      ChainStep(us, MicroSeconds);
      r := FromNanoSeconds(us * 1000);
      TDivExact(us, NS_PER_MICROSECOND);
    }

    static method FromMilliSeconds(ms: s64) returns (r: TimeSpanType)
      requires ChainFits(ms, MilliSeconds)
      ensures fresh(r) && r.ns == ms * NS_PER_MILLISECOND
      ensures r.GetMilliSeconds() == ms && r.GetMicroSeconds() == ms * 1000
    {
      ChainStep(ms, MilliSeconds);
      r := FromMicroSeconds(ms * 1000);
      TDivExact(ms, NS_PER_MILLISECOND);
    }

    static method FromSeconds(s: s64) returns (r: TimeSpanType)
      requires ChainFits(s, Seconds)
      ensures fresh(r) && r.ns == s * NS_PER_SECOND
      ensures r.GetSeconds() == s && r.GetMilliSeconds() == s * 1000
      ensures r.GetMicroSeconds() == s * 1000 * 1000
    {
      ChainStep(s, Seconds);
      r := FromMilliSeconds(s * 1000);
      TDivExact(s, NS_PER_SECOND);
    }

    static method FromMinutes(m: s64) returns (r: TimeSpanType)
      requires ChainFits(m, Minutes)
      ensures fresh(r) && r.ns == m * NS_PER_MINUTE
      ensures r.GetMinutes() == m && r.GetSeconds() == m * 60
      ensures r.GetMilliSeconds() == m * 60 * 1000 && r.GetMicroSeconds() == m * 60 * 1000 * 1000
    {
      ChainStep(m, Minutes);
      r := FromSeconds(m * 60);
      TDivExact(m, NS_PER_MINUTE);
    }

    static method FromHours(h: s64) returns (r: TimeSpanType)
      requires ChainFits(h, Hours)
      ensures fresh(r) && r.ns == h * NS_PER_HOUR
      ensures r.GetHours() == h && r.GetMinutes() == h * 60 && r.GetSeconds() == h * 60 * 60
      ensures r.GetMilliSeconds() == h * 60 * 60 * 1000
      ensures r.GetMicroSeconds() == h * 60 * 60 * 1000 * 1000
    {
      ChainStep(h, Hours);
      r := FromMinutes(h * 60);
      TDivExact(h, NS_PER_HOUR);
    }

    static method FromDays(d: s64) returns (r: TimeSpanType)
      requires ChainFits(d, Days)
      ensures fresh(r) && r.ns == d * NS_PER_DAY
      ensures r.GetDays() == d && r.GetHours() == d * 24 && r.GetMinutes() == d * 24 * 60
      ensures r.GetSeconds() == d * 24 * 60 * 60
      ensures r.GetMilliSeconds() == d * 24 * 60 * 60 * 1000
      ensures r.GetMicroSeconds() == d * 24 * 60 * 60 * 1000 * 1000
    {
      ChainStep(d, Days);
      r := FromHours(d * 24);
      TDivExact(d, NS_PER_DAY);
    }

    // Getters: the nanosecond count divided by the unit with C++ division, which
    // truncates toward zero (-1500 ms is -1 s, not -2 s).

    function GetNanoSeconds(): (r: s64)
      reads this
    {
      ns
    }

    function GetMicroSeconds(): (r: s64)
      reads this
      ensures IsTruncQuotient(ns, NS_PER_MICROSECOND, r)
    {
      TDiv(GetNanoSeconds(), NS_PER_MICROSECOND)
    }

    function GetMilliSeconds(): (r: s64)
      reads this
      ensures IsTruncQuotient(ns, NS_PER_MILLISECOND, r)
    {
      TDiv(GetNanoSeconds(), NS_PER_MILLISECOND)
    }

    function GetSeconds(): (r: s64)
      reads this
      ensures IsTruncQuotient(ns, NS_PER_SECOND, r)
    {
      TDiv(GetNanoSeconds(), NS_PER_SECOND)
    }

    function GetMinutes(): (r: s64)
      reads this
      ensures IsTruncQuotient(ns, NS_PER_MINUTE, r)
    {
      TDiv(GetNanoSeconds(), NS_PER_MINUTE)
    }

    function GetHours(): (r: s64)
      reads this
      ensures IsTruncQuotient(ns, NS_PER_HOUR, r)
    {
      TDiv(GetNanoSeconds(), NS_PER_HOUR)
    }

    function GetDays(): (r: s64)
      reads this
      ensures IsTruncQuotient(ns, NS_PER_DAY, r)
    {
      TDiv(GetNanoSeconds(), NS_PER_DAY)
    }

    // The six comparison operators, on the nanosecond counts.

    static predicate Eq(lhs: TimeSpanType, rhs: TimeSpanType)
      reads lhs, rhs
    {
      lhs.ns == rhs.ns
    }

    static predicate Ne(lhs: TimeSpanType, rhs: TimeSpanType)
      reads lhs, rhs
      ensures Ne(lhs, rhs) <==> !Eq(lhs, rhs)
    {
      lhs.ns != rhs.ns
    }

    static predicate Le(lhs: TimeSpanType, rhs: TimeSpanType)
      reads lhs, rhs
    {
      lhs.ns <= rhs.ns
    }

    static predicate Ge(lhs: TimeSpanType, rhs: TimeSpanType)
      reads lhs, rhs
      ensures Ge(lhs, rhs) <==> !Lt(lhs, rhs)
    {
      lhs.ns >= rhs.ns
    }

    static predicate Lt(lhs: TimeSpanType, rhs: TimeSpanType)
      reads lhs, rhs
    {
      lhs.ns < rhs.ns
    }

    static predicate Gt(lhs: TimeSpanType, rhs: TimeSpanType)
      reads lhs, rhs
      ensures Gt(lhs, rhs) <==> !Le(lhs, rhs)
    {
      lhs.ns > rhs.ns
    }

    /** `operator+=`: adds `rhs` in place and returns this object. `a += a` doubles `a`. */
    method AddAssign(rhs: TimeSpanType) returns (self: TimeSpanType)
      requires InS64(ns + rhs.ns)
      modifies this
      ensures self == this
      ensures ns == old(ns) + old(rhs.ns)
      ensures rhs != this ==> rhs.ns == old(rhs.ns)
    {
      ns := ns + rhs.ns;
      self := this;
    }

    /** `operator-=`: subtracts `rhs` in place and returns this object. `a -= a` zeroes `a`. */
    method SubtractAssign(rhs: TimeSpanType) returns (self: TimeSpanType)
      requires InS64(ns - rhs.ns)
      modifies this
      ensures self == this
      ensures ns == old(ns) - old(rhs.ns)
      ensures rhs != this ==> rhs.ns == old(rhs.ns)
    {
      ns := ns - rhs.ns;
      self := this;
    }

    /** `operator+`: copies `lhs` and adds `rhs` to the copy; neither operand changes. */
    static method Add(lhs: TimeSpanType, rhs: TimeSpanType) returns (r: TimeSpanType)
      requires InS64(lhs.ns + rhs.ns)
      ensures fresh(r) && r.ns == lhs.ns + rhs.ns
      ensures unchanged(lhs, rhs)
    {
      r := new TimeSpanType(lhs.ns);
      r := r.AddAssign(rhs);
    }

    /** `operator-`: copies `lhs` and subtracts `rhs` from the copy; neither operand changes. */
    static method Subtract(lhs: TimeSpanType, rhs: TimeSpanType) returns (r: TimeSpanType)
      requires InS64(lhs.ns - rhs.ns)
      ensures fresh(r) && r.ns == lhs.ns - rhs.ns
      ensures unchanged(lhs, rhs)
    {
      r := new TimeSpanType(lhs.ns);
      r := r.SubtractAssign(rhs);
    }
  }

  /** The comparison operators are exactly integer comparison of the nanosecond counts:
      each operator is the complement of its partner and `>`/`>=` are `<`/`<=` flipped. */
  lemma ComparisonsMirrorNanoSeconds(a: TimeSpanType, b: TimeSpanType)
    ensures TimeSpanType.Eq(a, b) <==> a.GetNanoSeconds() == b.GetNanoSeconds()
    ensures TimeSpanType.Lt(a, b) <==> a.GetNanoSeconds() < b.GetNanoSeconds()
    ensures TimeSpanType.Le(a, b) <==> a.GetNanoSeconds() <= b.GetNanoSeconds()
    ensures TimeSpanType.Ne(a, b) <==> !TimeSpanType.Eq(a, b)
    ensures TimeSpanType.Lt(a, b) <==> !TimeSpanType.Ge(a, b)
    ensures TimeSpanType.Le(a, b) <==> !TimeSpanType.Gt(a, b)
    ensures TimeSpanType.Gt(a, b) <==> TimeSpanType.Lt(b, a)
    ensures TimeSpanType.Ge(a, b) <==> TimeSpanType.Le(b, a)
    ensures TimeSpanType.Le(a, b) <==> TimeSpanType.Lt(a, b) || TimeSpanType.Eq(a, b)
  {
  }

  /** Each getter is the next finer getter divided once more, with the same truncation:
      the unit conversions form one consistent chain. */
  lemma GettersChain(t: TimeSpanType)
    ensures t.GetMicroSeconds() == TDiv(t.GetNanoSeconds(), 1000)
    ensures t.GetMilliSeconds() == TDiv(t.GetMicroSeconds(), 1000)
    ensures t.GetSeconds() == TDiv(t.GetMilliSeconds(), 1000)
    ensures t.GetMinutes() == TDiv(t.GetSeconds(), 60)
    ensures t.GetHours() == TDiv(t.GetMinutes(), 60)
    ensures t.GetDays() == TDiv(t.GetHours(), 24)
  {
    TDivNested(t.ns, NS_PER_MICROSECOND, 1000);
    TDivNested(t.ns, NS_PER_MILLISECOND, 1000);
    TDivNested(t.ns, NS_PER_SECOND, 60);
    TDivNested(t.ns, NS_PER_MINUTE, 60);
    TDivNested(t.ns, NS_PER_HOUR, 24);
  }

  /** The order of spans carries over to every unit: a shorter span never reads as more
      microseconds, milliseconds, seconds, minutes, hours or days. */
  lemma GettersMonotone(a: TimeSpanType, b: TimeSpanType)
    requires TimeSpanType.Le(a, b)
    ensures a.GetMicroSeconds() <= b.GetMicroSeconds()
    ensures a.GetMilliSeconds() <= b.GetMilliSeconds()
    ensures a.GetSeconds() <= b.GetSeconds()
    ensures a.GetMinutes() <= b.GetMinutes()
    ensures a.GetHours() <= b.GetHours()
    ensures a.GetDays() <= b.GetDays()
  {
    TDivMonotone(a.ns, b.ns, NS_PER_MICROSECOND);
    TDivMonotone(a.ns, b.ns, NS_PER_MILLISECOND);
    TDivMonotone(a.ns, b.ns, NS_PER_SECOND);
    TDivMonotone(a.ns, b.ns, NS_PER_MINUTE);
    TDivMonotone(a.ns, b.ns, NS_PER_HOUR);
    TDivMonotone(a.ns, b.ns, NS_PER_DAY);
  }

  /** Truncation toward zero: opposite spans read as opposite amounts in every unit,
      which a flooring division would break. */
  lemma GettersOdd(a: TimeSpanType, b: TimeSpanType)
    requires a.ns + b.ns == 0
    ensures a.GetMicroSeconds() == -b.GetMicroSeconds()
    ensures a.GetMilliSeconds() == -b.GetMilliSeconds()
    ensures a.GetSeconds() == -b.GetSeconds()
    ensures a.GetMinutes() == -b.GetMinutes()
    ensures a.GetHours() == -b.GetHours()
    ensures a.GetDays() == -b.GetDays()
  {
    TDivNegate(b.ns, NS_PER_MICROSECOND);
    TDivNegate(b.ns, NS_PER_MILLISECOND);
    TDivNegate(b.ns, NS_PER_SECOND);
    TDivNegate(b.ns, NS_PER_MINUTE);
    TDivNegate(b.ns, NS_PER_HOUR);
    TDivNegate(b.ns, NS_PER_DAY);
  }

  /** 1500 ms reads as 1 s and -1500 ms as -1 s: the getters truncate, they do not round or floor. */
  method TruncationExamples() returns (positive: s64, negative: s64)
    ensures positive == 1 && negative == -1
  {
    var a := TimeSpanType.FromMilliSeconds(1500);
    positive := a.GetSeconds();
    var b := TimeSpanType.FromMilliSeconds(-1500);
    negative := b.GetSeconds();
  }

  /** `(a + b) - b == a` whenever `a + b` does not overflow. */
  method AddSubtractRoundTrip(a: TimeSpanType, b: TimeSpanType) returns (r: TimeSpanType)
    requires InS64(a.ns + b.ns)
    ensures TimeSpanType.Eq(r, a)
  {
    var sum := TimeSpanType.Add(a, b);
    r := TimeSpanType.Subtract(sum, b);
  }

  /** `a + b == b + a` whenever the sum does not overflow. */
  method AddCommutative(a: TimeSpanType, b: TimeSpanType) returns (ab: TimeSpanType, ba: TimeSpanType)
    requires InS64(a.ns + b.ns)
    ensures TimeSpanType.Eq(ab, ba)
  {
    ab := TimeSpanType.Add(a, b);
    ba := TimeSpanType.Add(b, a);
  }

  /** `nn::TimeSpan`: holds one `TimeSpanType` by value (`m_ts`) and delegates every
      operation to it. The held object is allocated afresh by the constructor, so no two
      wrappers share it; `+=` and `-=` require this of their two operands, and every
      constructor, factory and copying operator ensures it of what it returns. */
  class TimeSpan {
    const ts: TimeSpanType

    /** The converting constructor `TimeSpan(const TimeSpanType&)`: copies `t`. */
    constructor (t: TimeSpanType)
      ensures fresh(ts) && ts.ns == t.ns
    {
      ts := new TimeSpanType(t.ns);
    }

    // Factories: build the `TimeSpanType` with its own factory, then convert.

    static method FromNanoSeconds(ns: s64) returns (r: TimeSpan)
      ensures fresh(r) && fresh(r.ts) && r.ts.ns == ns
      ensures r.GetNanoSeconds() == ns
    {
      var t := TimeSpanType.FromNanoSeconds(ns);
      r := new TimeSpan(t);
    }

    static method FromMicroSeconds(us: s64) returns (r: TimeSpan)
      requires ChainFits(us, MicroSeconds)
      ensures fresh(r) && fresh(r.ts) && r.ts.ns == us * NS_PER_MICROSECOND
      ensures r.GetMicroSeconds() == us
    {
      var t := TimeSpanType.FromMicroSeconds(us);
      r := new TimeSpan(t);
    }

    static method FromMilliSeconds(ms: s64) returns (r: TimeSpan)
      requires ChainFits(ms, MilliSeconds)
      ensures fresh(r) && fresh(r.ts) && r.ts.ns == ms * NS_PER_MILLISECOND
      ensures r.GetMilliSeconds() == ms
    {
      var t := TimeSpanType.FromMilliSeconds(ms);
      r := new TimeSpan(t);
    }

    static method FromSeconds(s: s64) returns (r: TimeSpan)
      requires ChainFits(s, Seconds)
      ensures fresh(r) && fresh(r.ts) && r.ts.ns == s * NS_PER_SECOND
      ensures r.GetSeconds() == s
    {
      var t := TimeSpanType.FromSeconds(s);
      r := new TimeSpan(t);
    }

    static method FromMinutes(m: s64) returns (r: TimeSpan)
      requires ChainFits(m, Minutes)
      ensures fresh(r) && fresh(r.ts) && r.ts.ns == m * NS_PER_MINUTE
      ensures r.GetMinutes() == m
    {
      var t := TimeSpanType.FromMinutes(m);
      r := new TimeSpan(t);
    }

    static method FromHours(h: s64) returns (r: TimeSpan)
      requires ChainFits(h, Hours)
      ensures fresh(r) && fresh(r.ts) && r.ts.ns == h * NS_PER_HOUR
      ensures r.GetHours() == h
    {
      var t := TimeSpanType.FromHours(h);
      r := new TimeSpan(t);
    }

    static method FromDays(d: s64) returns (r: TimeSpan)
      requires ChainFits(d, Days)
      ensures fresh(r) && fresh(r.ts) && r.ts.ns == d * NS_PER_DAY
      ensures r.GetDays() == d
    {
      var t := TimeSpanType.FromDays(d);
      r := new TimeSpan(t);
    }

    // Getters: those of the held value, so they truncate the same way.

    function GetNanoSeconds(): (r: s64)
      reads ts
    {
      ts.GetNanoSeconds()
    }

    function GetMicroSeconds(): (r: s64)
      reads ts
      ensures IsTruncQuotient(ts.ns, NS_PER_MICROSECOND, r)
    {
      ts.GetMicroSeconds()
    }

    function GetMilliSeconds(): (r: s64)
      reads ts
      ensures IsTruncQuotient(ts.ns, NS_PER_MILLISECOND, r)
    {
      ts.GetMilliSeconds()
    }

    function GetSeconds(): (r: s64)
      reads ts
      ensures IsTruncQuotient(ts.ns, NS_PER_SECOND, r)
    {
      ts.GetSeconds()
    }

    function GetMinutes(): (r: s64)
      reads ts
      ensures IsTruncQuotient(ts.ns, NS_PER_MINUTE, r)
    {
      ts.GetMinutes()
    }

    function GetHours(): (r: s64)
      reads ts
      ensures IsTruncQuotient(ts.ns, NS_PER_HOUR, r)
    {
      ts.GetHours()
    }

    function GetDays(): (r: s64)
      reads ts
      ensures IsTruncQuotient(ts.ns, NS_PER_DAY, r)
    {
      ts.GetDays()
    }

    // Comparisons: those of the held values.

    static predicate Eq(lhs: TimeSpan, rhs: TimeSpan)
      reads lhs.ts, rhs.ts
      ensures Eq(lhs, rhs) <==> lhs.GetNanoSeconds() == rhs.GetNanoSeconds()
    {
      TimeSpanType.Eq(lhs.ts, rhs.ts)
    }

    static predicate Ne(lhs: TimeSpan, rhs: TimeSpan)
      reads lhs.ts, rhs.ts
      ensures Ne(lhs, rhs) <==> lhs.GetNanoSeconds() != rhs.GetNanoSeconds()
    {
      TimeSpanType.Ne(lhs.ts, rhs.ts)
    }

    static predicate Le(lhs: TimeSpan, rhs: TimeSpan)
      reads lhs.ts, rhs.ts
      ensures Le(lhs, rhs) <==> lhs.GetNanoSeconds() <= rhs.GetNanoSeconds()
    {
      TimeSpanType.Le(lhs.ts, rhs.ts)
    }

    static predicate Ge(lhs: TimeSpan, rhs: TimeSpan)
      reads lhs.ts, rhs.ts
      ensures Ge(lhs, rhs) <==> lhs.GetNanoSeconds() >= rhs.GetNanoSeconds()
    {
      TimeSpanType.Ge(lhs.ts, rhs.ts)
    }

    static predicate Lt(lhs: TimeSpan, rhs: TimeSpan)
      reads lhs.ts, rhs.ts
      ensures Lt(lhs, rhs) <==> lhs.GetNanoSeconds() < rhs.GetNanoSeconds()
    {
      TimeSpanType.Lt(lhs.ts, rhs.ts)
    }

    static predicate Gt(lhs: TimeSpan, rhs: TimeSpan)
      reads lhs.ts, rhs.ts
      ensures Gt(lhs, rhs) <==> lhs.GetNanoSeconds() > rhs.GetNanoSeconds()
    {
      TimeSpanType.Gt(lhs.ts, rhs.ts)
    }

    /** `operator+=`: adds `rhs`'s held value to this one's in place; returns this wrapper. */
    method AddAssign(rhs: TimeSpan) returns (self: TimeSpan)
      requires InS64(ts.ns + rhs.ts.ns)
      requires rhs == this || rhs.ts != ts
      modifies ts
      ensures self == this
      ensures ts.ns == old(ts.ns) + old(rhs.ts.ns)
      ensures rhs != this ==> rhs.ts.ns == old(rhs.ts.ns)
    {
      var _ := ts.AddAssign(rhs.ts);
      self := this;
    }

    /** `operator-=`: subtracts `rhs`'s held value from this one's in place; returns this wrapper. */
    method SubtractAssign(rhs: TimeSpan) returns (self: TimeSpan)
      requires InS64(ts.ns - rhs.ts.ns)
      requires rhs == this || rhs.ts != ts
      modifies ts
      ensures self == this
      ensures ts.ns == old(ts.ns) - old(rhs.ts.ns)
      ensures rhs != this ==> rhs.ts.ns == old(rhs.ts.ns)
    {
      var _ := ts.SubtractAssign(rhs.ts);
      self := this;
    }

    /** `operator+`: copies `lhs` and adds `rhs` to the copy; neither operand changes. */
    static method Add(lhs: TimeSpan, rhs: TimeSpan) returns (r: TimeSpan)
      requires InS64(lhs.ts.ns + rhs.ts.ns)
      ensures fresh(r) && fresh(r.ts) && r.ts.ns == lhs.ts.ns + rhs.ts.ns
      ensures unchanged(lhs.ts, rhs.ts)
    {
      r := new TimeSpan(lhs.ts);
      r := r.AddAssign(rhs);
    }

    /** `operator-`: copies `lhs` and subtracts `rhs` from the copy; neither operand changes. */
    static method Subtract(lhs: TimeSpan, rhs: TimeSpan) returns (r: TimeSpan)
      requires InS64(lhs.ts.ns - rhs.ts.ns)
      ensures fresh(r) && fresh(r.ts) && r.ts.ns == lhs.ts.ns - rhs.ts.ns
      ensures unchanged(lhs.ts, rhs.ts)
    {
      r := new TimeSpan(lhs.ts);
      r := r.SubtractAssign(rhs);
    }

    /** `operator TimeSpanType`: a copy of the held value. */
    method ToTimeSpanType() returns (r: TimeSpanType)
      ensures fresh(r) && r.ns == ts.ns
    {
      r := new TimeSpanType(ts.ns);
    }
  }

  /** The wrapper is transparent: its getters and comparisons give what the held
      `TimeSpanType` gives. */
  lemma WrapperTransparent(a: TimeSpan, b: TimeSpan)
    ensures a.GetNanoSeconds() == a.ts.GetNanoSeconds()
    ensures a.GetMicroSeconds() == a.ts.GetMicroSeconds()
    ensures a.GetMilliSeconds() == a.ts.GetMilliSeconds()
    ensures a.GetSeconds() == a.ts.GetSeconds()
    ensures a.GetMinutes() == a.ts.GetMinutes()
    ensures a.GetHours() == a.ts.GetHours()
    ensures a.GetDays() == a.ts.GetDays()
    ensures TimeSpan.Eq(a, b) == TimeSpanType.Eq(a.ts, b.ts)
    ensures TimeSpan.Ne(a, b) == TimeSpanType.Ne(a.ts, b.ts)
    ensures TimeSpan.Le(a, b) == TimeSpanType.Le(a.ts, b.ts)
    ensures TimeSpan.Ge(a, b) == TimeSpanType.Ge(a.ts, b.ts)
    ensures TimeSpan.Lt(a, b) == TimeSpanType.Lt(a.ts, b.ts)
    ensures TimeSpan.Gt(a, b) == TimeSpanType.Gt(a.ts, b.ts)
  {
  }

  /** Wrapping a `TimeSpanType` and converting back yields an equal value. */
  method WrapThenConvert(t: TimeSpanType) returns (r: TimeSpanType)
    ensures TimeSpanType.Eq(r, t)
  {
    var w := new TimeSpan(t);
    r := w.ToTimeSpanType();
  }

  /** The wrapper's `+` then `-` by the same operand gives back the left operand. */
  method WrapperAddSubtractRoundTrip(a: TimeSpan, b: TimeSpan) returns (r: TimeSpan)
    requires InS64(a.ts.ns + b.ts.ns)
    ensures TimeSpan.Eq(r, a)
  {
    var sum := TimeSpan.Add(a, b);
    r := TimeSpan.Subtract(sum, b);
  }
}
