/** The custom part of the behaviors model: FindList and CountList turn the
    optional filters of a list call into a parameterised PostgreSQL statement
    and its argument list. Only the statement and its arguments are modelled;
    running them is not. */
module BehaviorsModel {
  import opened BehaviorTypes
  import opened SqlText

  /** The optional filters of a list call. An empty key, a userId <= 0 and an
      absent time bound each mean "no filter". */
  datatype Filter = Filter(key: string, userId: int, startTime: Option<Time>, endTime: Option<Time>)

  /** The four optional conditions, in the order the builder tests them. */
  datatype FilterKind = ByKey | ByUser | CreatedFrom | CreatedUntil

  /** A bound parameter value: the key, the user id, a time bound, the page size
      or the offset. */
  datatype SqlArg = StrArg(s: string) | IntArg(i: int) | TimeArg(t: Time)

  datatype Query = Query(text: string, args: seq<SqlArg>)

  /** The table name and the column list come from the generated model code:
      the quoted column names joined with commas. */
  const Table := "\"public\".\"behaviors\""
  const BehaviorsRows := "\"id\",\"key\"," + "\"user_id\",\"data\","
    + "\"created_at\"," + "\"updated_at\"," + "\"deleted_at\""
  const NotDeleted := "deleted_at IS NULL"
  const AndSep := " AND "

  /** The position of a condition in the fixed order. */
  function Rank(k: FilterKind): nat
  {
    match k
    case ByKey => 0
    case ByUser => 1
    case CreatedFrom => 2
    case CreatedUntil => 3
  }

  /** The presence test of each optional filter. */
  predicate IsPresent(f: Filter, k: FilterKind)
  {
    match k
    case ByKey => f.key != ""
    case ByUser => f.userId > 0
    case CreatedFrom => f.startTime.Some?
    case CreatedUntil => f.endTime.Some?
  }

  /** The one-element list [k] when k is present in f, else []. */
  function IfPresent(f: Filter, k: FilterKind): seq<FilterKind>
  {
    if IsPresent(f, k) then [k] else []
  }

  /** The conditions present in f, in the builder's fixed order. */
  function Present(f: Filter): (kinds: seq<FilterKind>)
    ensures forall k :: k in kinds <==> IsPresent(f, k)
  {
    IfPresent(f, ByKey) + IfPresent(f, ByUser) + IfPresent(f, CreatedFrom) + IfPresent(f, CreatedUntil)
  }

  /** The column each condition tests. */
  function ColumnName(k: FilterKind): string
  {
    match k
    case ByKey => "key"
    case ByUser => "user_id"
    case CreatedFrom => "created_at"
    case CreatedUntil => "created_at"
  }

  /** The comparison operator each condition renders. */
  function Operator(k: FilterKind): string
  {
    match k
    case ByKey => "="
    case ByUser => "="
    case CreatedFrom => ">="
    case CreatedUntil => "<="
  }

  /** The comparison each condition makes, up to its placeholder. */
  function ConditionText(k: FilterKind): string
  {
    match k
    case ByKey => "key = "
    case ByUser => "user_id = "
    case CreatedFrom => "created_at >= "
    case CreatedUntil => "created_at <= "
  }

  /** The rendered comparison is the column, the operator and a space each, so
      the meaning Holds gives a condition is the one its text states. */
  lemma ConditionTextParts(k: FilterKind)
    ensures ConditionText(k) == ColumnName(k) + " " + Operator(k) + " "
  {
  }

  /** A condition bound to placeholder n. */
  function Fragment(k: FilterKind, n: nat): string
  {
    ConditionText(k) + Param(n)
  }

  /** The value a present condition binds. */
  function Bound(f: Filter, k: FilterKind): SqlArg
    requires IsPresent(f, k)
  {
    match k
    case ByKey => StrArg(f.key)
    case ByUser => IntArg(f.userId)
    case CreatedFrom => TimeArg(f.startTime.value)
    case CreatedUntil => TimeArg(f.endTime.value)
  }

  /** The WHERE conditions for the given present kinds: the soft-delete
      condition, then one fragment per kind, numbered from $1. */
  function WhereConditions(kinds: seq<FilterKind>): seq<string>
  {
    [NotDeleted] + seq(|kinds|, i requires 0 <= i < |kinds| => Fragment(kinds[i], i + 1))
  }

  /** The values bound to the WHERE placeholders, in placeholder order. */
  function FilterArgs(f: Filter): seq<SqlArg>
  {
    BoundArgs(f, Present(f))
  }

  function BoundArgs(f: Filter, kinds: seq<FilterKind>): (args: seq<SqlArg>)
    requires forall k :: k in kinds ==> IsPresent(f, k)
    ensures |args| == |kinds|
  {
    seq(|kinds|, i requires 0 <= i < |kinds| => Bound(f, kinds[i]))
  }

  function WhereClause(kinds: seq<FilterKind>): string
  {
    Join(WhereConditions(kinds), AndSep)
  }

  const OrderLimit := " ORDER BY created_at DESC" + " LIMIT "
  const OffsetWord := " OFFSET "
  const SelectHead := "SELECT " + BehaviorsRows + " FROM " + Table + " WHERE "
  const CountHead := "SELECT COUNT(*) FROM " + Table + " WHERE "

  /** The paginated SELECT: LIMIT and OFFSET take the two placeholders after
      the filters'. */
  function SelectText(kinds: seq<FilterKind>): string
  {
    SelectHead + WhereClause(kinds) + OrderLimit + Param(|kinds| + 1) + OffsetWord + Param(|kinds| + 2)
  }

  /** The COUNT over the same WHERE clause, without pagination. */
  function CountText(kinds: seq<FilterKind>): string
  {
    CountHead + WhereClause(kinds)
  }

  /** The offset of a page, computed the way the code evidently intends:
      without the 32-bit wrap-around of the as-written arithmetic
      (see OffsetAsWritten). What it promises beyond that formula is its
      64-bit result type, which OffsetFits establishes; OffsetOfPage states
      how pages tile. */
  function Offset(page: Int32, pageSize: Int32): (offset: Int64)
    ensures offset == (page - 1) * pageSize
  {
    OffsetFits(page, pageSize);
    (page - 1) * pageSize
  }

  lemma OffsetFits(page: Int32, pageSize: Int32)
    ensures -0x8000_0000_0000_0000 <= (page - 1) * pageSize < 0x8000_0000_0000_0000
  {
    var a: int, b: int := page - 1, pageSize;
    var x: nat := if a < 0 then -a else a;
    var y: nat := if b < 0 then -b else b;
    assert x <= 0x8000_0001 && y <= 0x8000_0000;
    MulMono(x, y, 0x8000_0001);
    MulMono(y, 0x8000_0001, 0x8000_0000);
    assert a * b == x * y || a * b == -(x * y) by {
      if a < 0 && b < 0 { assert a * b == (-a) * (-b); }
      else if a < 0 { assert a * b == -((-a) * b); }
      else if b < 0 { assert a * b == -(a * (-b)); }
    }
  }

  lemma MulMono(x: nat, y: nat, bound: nat)
    requires x <= bound
    ensures x * y <= bound * y
  {
    assert bound * y - x * y == (bound - x) * y;
  }

  /** Pages tile the result: the first page starts at 0, every page starts
      where the previous one ends, and no page starts before 0. */
  lemma OffsetOfPage(page: Int32, pageSize: Int32)
    requires page >= 1 && pageSize >= 1
    ensures Offset(page, pageSize) >= 0
    ensures Offset(page, pageSize) == 0 <==> page == 1
    ensures page < 0x7FFF_FFFF ==> Offset(page + 1, pageSize) == Offset(page, pageSize) + pageSize
  {
    if page > 1 { MulMono(1, pageSize, page - 1); }
  }

  /** Go's int32 arithmetic: the two's-complement value congruent to x. */
  function Wrap32(x: int): (r: Int32)
    ensures (r - x) % 0x1_0000_0000 == 0
    ensures -0x8000_0000 <= x < 0x8000_0000 ==> r == x
  {
    (x + 0x8000_0000) % 0x1_0000_0000 - 0x8000_0000
  }

  /** The offset as the code writes it, `(page - 1) * pageSize` on int32
      operands, wrapping on overflow: the int32 value congruent to the exact
      product, even when `page - 1` itself wraps. */
  function OffsetAsWritten(page: Int32, pageSize: Int32): (offset: Int32)
    ensures offset == Wrap32((page - 1) * pageSize)
  {
    WrapProduct(page - 1, pageSize);
    Wrap32(Wrap32(page - 1) * pageSize)
  }

  /** Wrapping a factor first does not change the wrapped product. */
  lemma WrapProduct(p: int, q: int)
    requires -0x8000_0001 <= p < 0x8000_0000
    ensures Wrap32(Wrap32(p) * q) == Wrap32(p * q)
  {
    if p == -0x8000_0001 {
      assert Wrap32(p) == 0x7FFF_FFFF;
      WrapShift(p * q, q);
      assert Wrap32(p) * q == p * q + 0x1_0000_0000 * q;
    } else {
      assert Wrap32(p) == p;
    }
  }

  lemma WrapShift(x: int, k: int)
    ensures Wrap32(x + 0x1_0000_0000 * k) == Wrap32(x)
  {
    var m := 0x1_0000_0000;
    assert (x + m * k + 0x8000_0000) % m == (x + 0x8000_0000) % m by {
      assert x + m * k + 0x8000_0000 == (x + 0x8000_0000) + m * k;
    }
  }

  /** The as-written offset agrees with the intended one exactly when the
      product fits in 32 bits. */
  lemma OffsetAsWrittenAgrees(page: Int32, pageSize: Int32)
    ensures -0x8000_0000 <= (page - 1) * pageSize < 0x8000_0000 <==>
              OffsetAsWritten(page, pageSize) == Offset(page, pageSize)
  {
  }

  /** A page the list call accepts (page >= 1, pageSize <= 100) whose
      as-written offset wraps to a negative number. */
  lemma OffsetAsWrittenWraps()
    ensures OffsetAsWritten(21474838, 100) == -2147483596
    ensures Offset(21474838, 100) == 2147483700
  {
    assert Wrap32(21474837) == 21474837;
    assert Wrap32(2147483700) == -2147483596;
  }

  /** The arguments of the SELECT: the filter values, then the page size and
      the offset. */
  function SelectArgs(f: Filter, page: Int32, pageSize: Int32): seq<SqlArg>
  {
    FilterArgs(f) + [IntArg(pageSize), IntArg(Offset(page, pageSize))]
  }

  /** The condition-building part shared by FindList and CountList: the
      conditions and arguments are appended step by step, with a running
      placeholder counter. */
  method BuildWhere(f: Filter) returns (conditions: seq<string>, args: seq<SqlArg>, argIndex: nat)
    ensures conditions == WhereConditions(Present(f))
    ensures args == FilterArgs(f)
    ensures argIndex == |args| + 1
  {
    ghost var kinds: seq<FilterKind> := [];
    conditions := [NotDeleted];
    args := [];
    argIndex := 1;
    assert Built(f, kinds, conditions, args, argIndex);
    BuiltStep(f, kinds, ByKey, conditions, args, argIndex);
    if f.key != "" {
      conditions := conditions + [Fragment(ByKey, argIndex)];
      args := args + [StrArg(f.key)];
      argIndex := argIndex + 1;
    }
    kinds := kinds + IfPresent(f, ByKey);
    BuiltStep(f, kinds, ByUser, conditions, args, argIndex);
    if f.userId > 0 {
      conditions := conditions + [Fragment(ByUser, argIndex)];
      args := args + [IntArg(f.userId)];
      argIndex := argIndex + 1;
    }
    kinds := kinds + IfPresent(f, ByUser);
    BuiltStep(f, kinds, CreatedFrom, conditions, args, argIndex);
    if f.startTime != None {
      conditions := conditions + [Fragment(CreatedFrom, argIndex)];
      args := args + [TimeArg(f.startTime.value)];
      argIndex := argIndex + 1;
    }
    kinds := kinds + IfPresent(f, CreatedFrom);
    BuiltStep(f, kinds, CreatedUntil, conditions, args, argIndex);
    if f.endTime != None {
      conditions := conditions + [Fragment(CreatedUntil, argIndex)];
      args := args + [TimeArg(f.endTime.value)];
      argIndex := argIndex + 1;
    }
    kinds := kinds + IfPresent(f, CreatedUntil);
    PresentInOrder(f);
  }

  /** Testing one more filter k keeps Built: a present k adds its fragment on
      the next placeholder and its value; an absent one adds nothing. */
  lemma BuiltStep(f: Filter, kinds: seq<FilterKind>, k: FilterKind,
                  conditions: seq<string>, args: seq<SqlArg>, argIndex: nat)
    requires Built(f, kinds, conditions, args, argIndex)
    ensures IsPresent(f, k) ==>
              Built(f, kinds + IfPresent(f, k), conditions + [Fragment(k, argIndex)], args + [Bound(f, k)], argIndex + 1)
    ensures !IsPresent(f, k) ==> Built(f, kinds + IfPresent(f, k), conditions, args, argIndex)
  {
    if IsPresent(f, k) {
      WhereConditionsSnoc(kinds, k);
      BoundArgsSnoc(f, kinds, k);
    } else {
      assert kinds + IfPresent(f, k) == kinds;
    }
  }

  /** The four tests in turn, starting from none, give Present. */
  lemma PresentInOrder(f: Filter)
    ensures [] + IfPresent(f, ByKey) + IfPresent(f, ByUser) + IfPresent(f, CreatedFrom) + IfPresent(f, CreatedUntil)
            == Present(f)
  {
    assert [] + IfPresent(f, ByKey) == IfPresent(f, ByKey);
  }

  /** What BuildWhere holds after it has tested some of the filters and found
      `kinds` present. */
  ghost predicate Built(f: Filter, kinds: seq<FilterKind>, conditions: seq<string>, args: seq<SqlArg>, argIndex: nat)
  {
    && (forall k :: k in kinds ==> IsPresent(f, k))
    && conditions == WhereConditions(kinds)
    && args == BoundArgs(f, kinds)
    && argIndex == |kinds| + 1
  }

  lemma WhereConditionsSnoc(kinds: seq<FilterKind>, k: FilterKind)
    ensures WhereConditions(kinds + [k]) == WhereConditions(kinds) + [Fragment(k, |kinds| + 1)]
  {
    var l, r := WhereConditions(kinds + [k]), WhereConditions(kinds) + [Fragment(k, |kinds| + 1)];
    assert |l| == |r|;
    forall i | 0 <= i < |l| ensures l[i] == r[i] {
      if 0 < i <= |kinds| { assert (kinds + [k])[i - 1] == kinds[i - 1]; }
    }
  }

  lemma BoundArgsSnoc(f: Filter, kinds: seq<FilterKind>, k: FilterKind)
    requires forall j :: j in kinds ==> IsPresent(f, j)
    requires IsPresent(f, k)
    ensures BoundArgs(f, kinds + [k]) == BoundArgs(f, kinds) + [Bound(f, k)]
  {
    var l, r := BoundArgs(f, kinds + [k]), BoundArgs(f, kinds) + [Bound(f, k)];
    assert |l| == |r|;
    forall i | 0 <= i < |l| ensures l[i] == r[i] {
      if i < |kinds| { assert (kinds + [k])[i] == kinds[i]; }
    }
  }

  /** FindList's statement: the filters of `key`, `userId`, the two time
      bounds, then LIMIT and OFFSET. */
  method FindListQuery(key: string, userId: int, startTime: Option<Time>, endTime: Option<Time>,
                       page: Int32, pageSize: Int32) returns (q: Query)
    ensures q.text == SelectText(Present(Filter(key, userId, startTime, endTime)))
    ensures q.args == SelectArgs(Filter(key, userId, startTime, endTime), page, pageSize)
  {
    var conditions, args, argIndex := BuildWhere(Filter(key, userId, startTime, endTime));
    var offset := Offset(page, pageSize);
    args := args + [IntArg(pageSize), IntArg(offset)];
    var whereClause := Join(conditions, AndSep);
    var text := SelectHead + whereClause + OrderLimit + Param(argIndex) + OffsetWord + Param(argIndex + 1);
    q := Query(text, args);
  }

  /** CountList's statement: the same conditions and filter values, no
      pagination. */
  method CountListQuery(key: string, userId: int, startTime: Option<Time>, endTime: Option<Time>)
    returns (q: Query)
    ensures q.text == CountText(Present(Filter(key, userId, startTime, endTime)))
    ensures q.args == FilterArgs(Filter(key, userId, startTime, endTime))
  {
    var conditions, args, argIndex := BuildWhere(Filter(key, userId, startTime, endTime));
    var whereClause := Join(conditions, AndSep);
    q := Query(CountHead + whereClause, args);
  }

  // ---------------------------------------------------------------------
  // Properties of the statements

  /** Each filter contributes exactly when its presence test holds, and the
      contributions keep the fixed order key, user_id, created_at >=,
      created_at <=. */
  lemma PresentFollowsFilters(f: Filter)
    ensures forall k :: k in Present(f) <==> IsPresent(f, k)
    ensures forall i, j :: 0 <= i < j < |Present(f)| ==> Rank(Present(f)[i]) < Rank(Present(f)[j])
    ensures |Present(f)| == |IfPresent(f, ByKey)| + |IfPresent(f, ByUser)|
                            + |IfPresent(f, CreatedFrom)| + |IfPresent(f, CreatedUntil)|
  {
    forall i, j | 0 <= i < j < |Present(f)| ensures Rank(Present(f)[i]) < Rank(Present(f)[j]) {
      RankDistinct(f, i, j);
    }
  }

  /** Two positions of Present(f) hold different kinds. */
  lemma RankDistinct(f: Filter, i: nat, j: nat)
    requires i < j < |Present(f)|
    ensures Rank(Present(f)[i]) < Rank(Present(f)[j])
  {
    var a, b, c, d := IfPresent(f, ByKey), IfPresent(f, ByUser), IfPresent(f, CreatedFrom), IfPresent(f, CreatedUntil);
    var p := a + b + c + d;
    assert Present(f) == p;
    // position n of p holds a kind from a, b, c or d according to the prefix lengths
    assert forall n :: 0 <= n < |a| ==> p[n] == ByKey;
    assert forall n :: |a| <= n < |a| + |b| ==> p[n] == ByUser;
    assert forall n :: |a| + |b| <= n < |a| + |b| + |c| ==> p[n] == CreatedFrom;
    assert forall n :: |a| + |b| + |c| <= n < |p| ==> p[n] == CreatedUntil;
  }

  /** The WHERE conditions start with the soft-delete test and then hold one
      fragment per present filter: condition i + 1 compares the i-th present
      filter with the single placeholder $(i + 1), and argument i is the value
      of that filter. */
  lemma ConditionsNumbered(f: Filter)
    ensures |WhereConditions(Present(f))| == |Present(f)| + 1 == |FilterArgs(f)| + 1
    ensures WhereConditions(Present(f))[0] == NotDeleted
    ensures Placeholders(NotDeleted) == []
    ensures forall i {:trigger Present(f)[i]} :: 0 <= i < |Present(f)| ==>
              && WhereConditions(Present(f))[i + 1] == ConditionText(Present(f)[i]) + Param(i + 1)
              && Placeholders(WhereConditions(Present(f))[i + 1]) == [i + 1]
              && FilterArgs(f)[i] == Bound(f, Present(f)[i])
  {
    var kinds := Present(f);
    TailsNoDollar();
    NoDollarPlaceholders(NotDeleted);
    forall i | 0 <= i < |kinds|
      ensures WhereConditions(kinds)[i + 1] == ConditionText(kinds[i]) + Param(i + 1)
      ensures Placeholders(WhereConditions(kinds)[i + 1]) == [i + 1]
      ensures FilterArgs(f)[i] == Bound(f, kinds[i])
    {
      ConditionAt(kinds, i);
    }
  }

  /** Condition i + 1 is the i-th kind's comparison on $(i + 1), and holds
      that one placeholder. */
  lemma ConditionAt(kinds: seq<FilterKind>, i: nat)
    requires i < |kinds|
    ensures WhereConditions(kinds)[i + 1] == ConditionText(kinds[i]) + Param(i + 1)
    ensures Placeholders(WhereConditions(kinds)[i + 1]) == [i + 1]
  {
    ConditionTextNoDollar(kinds[i]);
    FragmentPlaceholders(ConditionText(kinds[i]), i + 1);
  }

  lemma RowsNoDollar()
    ensures '$' !in BehaviorsRows
  {
    assert '$' !in "\"id\",\"key\"," && '$' !in "\"user_id\",\"data\",";
    assert '$' !in "\"created_at\"," && '$' !in "\"updated_at\"," && '$' !in "\"deleted_at\"";
  }

  lemma SelectHeadNoDollar()
    ensures '$' !in SelectHead
  {
    RowsNoDollar();
    assert '$' !in Table;
    assert '$' !in "SELECT " && '$' !in " FROM " && '$' !in " WHERE ";
    assert SelectHead == "SELECT " + BehaviorsRows + " FROM " + Table + " WHERE ";
  }

  lemma CountHeadNoDollar()
    ensures '$' !in CountHead
  {
    assert '$' !in Table;
    assert '$' !in "SELECT COUNT(*) FROM " && '$' !in " WHERE ";
    assert CountHead == "SELECT COUNT(*) FROM " + Table + " WHERE ";
  }

  lemma TailsNoDollar()
    ensures '$' !in NotDeleted && '$' !in NotDeleted + AndSep
    ensures '$' !in OrderLimit && OrderLimit[0] == ' '
    ensures '$' !in OffsetWord && OffsetWord[0] == ' '
  {
    assert '$' !in " ORDER BY created_at DESC" && '$' !in " LIMIT ";
  }

  lemma ConditionTextNoDollar(k: FilterKind)
    ensures '$' !in ConditionText(k)
  {
  }

  /** The placeholders of the WHERE clause are $1 .. $n, n the number of
      present filters, in order. */
  lemma {:induction false} WherePlaceholders(kinds: seq<FilterKind>)
    ensures Placeholders(WhereClause(kinds)) == Numbers(1, |kinds|)
  {
    var cs := WhereConditions(kinds);
    if kinds == [] {
      assert cs == [NotDeleted];
      TailsNoDollar();
      NoDollarPlaceholders(NotDeleted);
    } else {
      WhereFragments(kinds);
      JoinPlaceholders(cs[1..], AndSep, 1);
      WhereAfterNotDeleted(kinds);
    }
  }

  /** The fragments after the soft-delete test hold $1, $2, ... in turn. */
  lemma WhereFragments(kinds: seq<FilterKind>)
    ensures forall i :: 0 <= i < |WhereConditions(kinds)[1..]| ==> Placeholders(WhereConditions(kinds)[1..][i]) == [1 + i]
  {
    var frags := WhereConditions(kinds)[1..];
    forall i | 0 <= i < |frags| ensures Placeholders(frags[i]) == [1 + i] {
      ConditionTextNoDollar(kinds[i]);
      FragmentPlaceholders(ConditionText(kinds[i]), i + 1);
    }
  }

  /** With at least one filter, the soft-delete test and its separator add
      no placeholder in front of the fragments. */
  lemma WhereAfterNotDeleted(kinds: seq<FilterKind>)
    requires kinds != []
    ensures Placeholders(WhereClause(kinds)) == Placeholders(Join(WhereConditions(kinds)[1..], AndSep))
  {
    var cs := WhereConditions(kinds);
    var rest := Join(cs[1..], AndSep);
    assert WhereClause(kinds) == NotDeleted + AndSep + rest;
    TailsNoDollar();
    PlaceholdersNoDollarPrefix(NotDeleted + AndSep, rest);
  }

  /** The SELECT numbers its placeholders $1 .. $n+2: the filters', then
      LIMIT at $n+1 and OFFSET at $n+2. */
  lemma SelectPlaceholders(kinds: seq<FilterKind>)
    ensures Placeholders(SelectText(kinds)) == Numbers(1, |kinds| + 2)
  {
    var n := |kinds|;
    var x1 := SelectHead + WhereClause(kinds);
    var x3 := x1 + OrderLimit + Param(n + 1);
    assert SelectText(kinds) == x3 + OffsetWord + Param(n + 2);
    SelectHeadNoDollar();
    TailsNoDollar();
    PlaceholdersNoDollarPrefix(SelectHead, WhereClause(kinds));
    WherePlaceholders(kinds);
    LiteralThenParam(x1, OrderLimit, n + 1);
    LiteralThenParam(x3, OffsetWord, n + 2);
    NumbersSnoc(1, n);
    NumbersSnoc(1, n + 1);
  }

  lemma NumbersSnoc(lo: nat, n: nat)
    ensures Numbers(lo, n) + [lo + n] == Numbers(lo, n + 1)
  {
    NumbersSplit(lo, n, 1);
    assert Numbers(lo + n, 1) == [lo + n];
  }

  /** Appending a `$`-free text that starts with a non-digit, then $n, adds
      the one placeholder n. */
  lemma LiteralThenParam(x: string, lit: string, n: nat)
    requires '$' !in lit && lit != [] && !IsDigit(lit[0])
    ensures Placeholders(x + lit + Param(n)) == Placeholders(x) + [n]
  {
    PlaceholdersAppend(x, lit + Param(n));
    ConcatAssoc(x, lit, Param(n));
    FragmentPlaceholders(lit, n);
  }

  /** The COUNT numbers its placeholders $1 .. $n and has no others. */
  lemma CountPlaceholders(kinds: seq<FilterKind>)
    ensures Placeholders(CountText(kinds)) == Numbers(1, |kinds|)
  {
    CountHeadNoDollar();
    PlaceholdersNoDollarPrefix(CountHead, WhereClause(kinds));
    WherePlaceholders(kinds);
  }

  /** The SELECT binds exactly its arguments: its placeholders are $1 ..
      $|args| in order, the filter values come first, then the page size
      (LIMIT) and the offset (OFFSET). The COUNT binds exactly the filter
      values of the SELECT. */
  lemma ArgsMatchPlaceholders(f: Filter, page: Int32, pageSize: Int32)
    ensures Placeholders(SelectText(Present(f))) == Numbers(1, |SelectArgs(f, page, pageSize)|)
    ensures Placeholders(CountText(Present(f))) == Numbers(1, |FilterArgs(f)|)
    ensures SelectArgs(f, page, pageSize)[..|FilterArgs(f)|] == FilterArgs(f)
    ensures SelectArgs(f, page, pageSize)[|Present(f)|] == IntArg(pageSize)
    ensures SelectArgs(f, page, pageSize)[|Present(f)| + 1] == IntArg((page - 1) * pageSize)
  {
    SelectPlaceholders(Present(f));
    CountPlaceholders(Present(f));
  }

  /** Injection safety: the statement texts depend only on which filters are
      present, never on their values; two filters with the same presence
      pattern yield the same texts and argument lists of the same shape. */
  lemma TextIgnoresValues(f: Filter, g: Filter)
    requires forall k :: IsPresent(f, k) <==> IsPresent(g, k)
    ensures SelectText(Present(f)) == SelectText(Present(g))
    ensures CountText(Present(f)) == CountText(Present(g))
    ensures |FilterArgs(f)| == |FilterArgs(g)|
  {
    assert IfPresent(f, ByKey) == IfPresent(g, ByKey);
    assert IfPresent(f, ByUser) == IfPresent(g, ByUser);
    assert IfPresent(f, CreatedFrom) == IfPresent(g, CreatedFrom);
    assert IfPresent(f, CreatedUntil) == IfPresent(g, CreatedUntil);
  }

  /** The soft-delete condition is the first thing after WHERE in both
      statements, whatever the filters. */
  lemma NotDeletedFirst(kinds: seq<FilterKind>)
    ensures SelectText(kinds)[|SelectHead|..|SelectHead| + |NotDeleted|] == NotDeleted
    ensures CountText(kinds)[|CountHead|..|CountHead| + |NotDeleted|] == NotDeleted
  {
    var w := WhereClause(kinds);
    WhereStartsNotDeleted(kinds);
    SliceAfter(SelectHead, w, OrderLimit + Param(|kinds| + 1) + OffsetWord + Param(|kinds| + 2), |NotDeleted|);
    assert SelectText(kinds) == SelectHead + w + (OrderLimit + Param(|kinds| + 1) + OffsetWord + Param(|kinds| + 2));
    SliceAfter(CountHead, w, "", |NotDeleted|);
    assert CountText(kinds) == CountHead + w + "";
  }

  /** The WHERE clause opens with the soft-delete test. */
  lemma WhereStartsNotDeleted(kinds: seq<FilterKind>)
    ensures |NotDeleted| <= |WhereClause(kinds)|
    ensures WhereClause(kinds)[..|NotDeleted|] == NotDeleted
  {
    var cs := WhereConditions(kinds);
    if |cs| == 1 {
      assert Join(cs, AndSep) == NotDeleted;
    } else {
      assert Join(cs, AndSep) == NotDeleted + (AndSep + Join(cs[1..], AndSep));
    }
  }

  lemma SliceAfter(x: string, w: string, y: string, n: nat)
    requires n <= |w|
    ensures (x + w + y)[|x|..|x| + n] == w[..n]
  {
  }

  // ---------------------------------------------------------------------
  // What the conditions mean for a row

  /** A row satisfies the filter: not soft-deleted, and equal to or within
      every present bound. */
  predicate Matches(row: Row, f: Filter)
  {
    && row.Live()
    && (f.key != "" ==> row.key == f.key)
    && (f.userId > 0 ==> row.userId == f.userId)
    && (f.startTime.Some? ==> row.createdAt >= f.startTime.value)
    && (f.endTime.Some? ==> row.createdAt <= f.endTime.value)
  }

  /** The value a row holds in a named column, as PostgreSQL compares it. */
  function ColumnValue(row: Row, column: string): Option<SqlArg>
  {
    if column == "key" then Some(StrArg(row.key))
    else if column == "user_id" then Some(IntArg(row.userId))
    else if column == "created_at" then Some(TimeArg(row.createdAt))
    else None
  }

  /** The truth of `v op arg` for a rendered operator. */
  predicate Compares(op: string, v: SqlArg, arg: SqlArg)
  {
    if op == "=" then v == arg
    else if op == ">=" then v.TimeArg? && arg.TimeArg? && v.t >= arg.t
    else if op == "<=" then v.TimeArg? && arg.TimeArg? && v.t <= arg.t
    else false
  }

  /** The truth of one condition for a row, given the value bound to it: the
      rendered column of the row compared by the rendered operator. */
  predicate Holds(k: FilterKind, arg: SqlArg, row: Row)
  {
    var v := ColumnValue(row, ColumnName(k));
    v.Some? && Compares(Operator(k), v.value, arg)
  }

  /** The conjunction the WHERE clause states: deleted_at IS NULL and every
      condition under its bound value. */
  predicate WhereHolds(kinds: seq<FilterKind>, args: seq<SqlArg>, row: Row)
    requires |args| == |kinds|
  {
    row.Live() && forall i :: 0 <= i < |kinds| ==> Holds(kinds[i], args[i], row)
  }

  /** The rendered conditions with their arguments select exactly the rows
      the filter describes. */
  lemma WhereMeansMatches(f: Filter, row: Row)
    ensures WhereHolds(Present(f), FilterArgs(f), row) <==> Matches(row, f)
  {
    WhereImpliesMatches(f, row);
    MatchesImpliesWhere(f, row);
  }

  lemma WhereImpliesMatches(f: Filter, row: Row)
    ensures WhereHolds(Present(f), FilterArgs(f), row) ==> Matches(row, f)
  {
    var p, args := Present(f), FilterArgs(f);
    if !WhereHolds(p, args, row) { return; }
    forall k | IsPresent(f, k)
      ensures Holds(k, Bound(f, k), row)
    {
      assert k in p;
      var i :| 0 <= i < |p| && p[i] == k;
      assert args[i] == Bound(f, k);
    }
    assert IsPresent(f, ByKey) ==> Holds(ByKey, Bound(f, ByKey), row);
    assert IsPresent(f, ByUser) ==> Holds(ByUser, Bound(f, ByUser), row);
    assert IsPresent(f, CreatedFrom) ==> Holds(CreatedFrom, Bound(f, CreatedFrom), row);
    assert IsPresent(f, CreatedUntil) ==> Holds(CreatedUntil, Bound(f, CreatedUntil), row);
  }

  lemma MatchesImpliesWhere(f: Filter, row: Row)
    ensures Matches(row, f) ==> WhereHolds(Present(f), FilterArgs(f), row)
  {
    var p, args := Present(f), FilterArgs(f);
    if !Matches(row, f) { return; }
    forall i | 0 <= i < |p|
      ensures Holds(p[i], args[i], row)
    {
      assert IsPresent(f, p[i]);
      assert args[i] == Bound(f, p[i]);
    }
  }
}
