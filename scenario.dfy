/** A worked example: two object records that share one key. */
module Scenario {
  import opened Wrappers
  import opened Json
  import opened Model
  import opened Columns
  import opened Table

  /** `{"a":1,"b":2}` and `{"b":3,"c":4}`. */
  function TwoRecords(): seq<Record> {
    [ Record("{\"a\":1,\"b\":2}", Some(Object([Member("a", Number(1)), Member("b", Number(2))]))),
      Record("{\"b\":3,\"c\":4}", Some(Object([Member("b", Number(3)), Member("c", Number(4))]))) ]
  }

  /** Their members, gathered record after record. */
  function TwoRecordsMembers(): seq<Member> {
    [Member("a", Number(1)), Member("b", Number(2)), Member("b", Number(3)), Member("c", Number(4))]
  }

  /** The members are gathered in record order, so the header repeats the shared key. */
  lemma {:induction false} TwoRecordsGathered()
    ensures AllPairs(TwoRecords()) == TwoRecordsMembers()
    ensures KeysOf(AllPairs(TwoRecords())) == ["a", "b", "b", "c"]
  {
    var rs, ps := TwoRecords(), TwoRecordsMembers();
    assert rs[..1][..0] == [] && rs[..1][0] == rs[0];
    assert AllPairs(rs[..1]) == ps[..2];
    assert rs[..|rs| - 1] == rs[..1];
  }

  /** A one-digit number under a one-letter key asks for one byte. */
  lemma OneByteDemand(key: char, n: nat)
    requires key as int < 0x80 && n < 10
    ensures Demand(Member([key], Number(n))) == 1
  {
    assert Render(Number(n)) == ["0123456789"[n]];
  }

  /** The first record opens columns a and b, at indices 0 and 1. */
  lemma {:induction false} FirstRecordSchema()
    ensures Scan(TwoRecordsMembers()[..2]) == map["a" := ColumnConfig(1, 0), "b" := ColumnConfig(1, 1)]
  {
    var ps := TwoRecordsMembers();
    OneByteDemand('a', 1);
    OneByteDemand('b', 2);
    var p0, p1 := ps[0], ps[1];
    var s1, s2 := ps[..1], ps[..2];
    assert s1[..0] == [] && s1[0] == p0;
    assert s2[..1] == s1 && s2[1] == p1;
    var one := map["a" := ColumnConfig(1, 0)];
    assert Scan(s1) == Step(map[], p0) == one;
    assert Scan(s2) == Step(one, p1);
  }

  /** The shared key keeps the index it got first, and the columns come out as a, b, c, each one byte wide. */
  lemma {:induction false} TwoRecordsSchema()
    ensures Build(TwoRecords()) == map["a" := ColumnConfig(1, 0), "b" := ColumnConfig(1, 1), "c" := ColumnConfig(1, 2)]
  {
    var ps := TwoRecordsMembers();
    TwoRecordsGathered();
    FirstRecordSchema();
    OneByteDemand('b', 3);
    OneByteDemand('c', 4);
    var p2, p3 := ps[2], ps[3];
    var s2, s3 := ps[..2], ps[..3];
    assert s3[..2] == s2 && s3[2] == p2;
    assert ps[..3] == s3 && ps[3] == p3;
    var two := map["a" := ColumnConfig(1, 0), "b" := ColumnConfig(1, 1)];
    assert Scan(s3) == Step(two, p2) == two;
    assert Scan(ps) == Step(two, p3);
  }

  /**
   The second record's row is its own two values, not aligned to the three
   columns: the header has four entries, the schema three columns.
   */
  lemma {:induction false} SecondRowIsItsOwnValues()
    ensures IsRowOf(["3", "4"], TwoRecords()[1])
    ensures |Members(TwoRecords()[1])| == 2 < |Build(TwoRecords())| == 3
  {
    TwoRecordsSchema();
    assert Render(Number(3)) == "3" && Render(Number(4)) == "4";
  }
}
