/** The segment manager's state file: three length-prefixed lists of segment ids. */
module StateFile {
  import opened Base

  const STATE_MAGIC: U32 := 0x534D_4753
  const STATE_VERSION: U32 := 1

  type Ids = seq<U32>

  datatype Lists = Lists(full: Ids, appending: Ids, idle: Ids)

  function PutIds(ids: Ids): Bytes {
    if ids == [] then [] else PutLe(ids[0], 4) + PutIds(ids[1..])
  }

  function PutList(ids: Ids): Bytes {
    PutLe(|ids|, 4) + PutIds(ids)
  }

  /** The bytes that saving writes. */
  function Encode(l: Lists): Bytes {
    PutLe(STATE_MAGIC, 4) + PutLe(STATE_VERSION, 4) + PutList(l.full) + PutList(l.appending) + PutList(l.idle)
  }

  function GetU32(b: Bytes): (v: U32)
    requires |b| >= 4
  {
    LeReadWrite(b[..4]);
    Widths();
    GetLe(b[..4])
  }

  /** `n` ids from the front, and what is left. */
  function TakeIds(b: Bytes, n: nat): (r: Option<(Ids, Bytes)>)
    ensures r.Some? ==> |r.value.0| == n
  {
    if n == 0 then Some(([], b))
    else if |b| < 4 then None
    else
      Prepend([GetU32(b)], TakeIds(b[4..], n - 1))
  }

  function TakeList(b: Bytes): Option<(Ids, Bytes)> {
    if |b| < 4 then None else TakeIds(b[4..], GetU32(b))
  }

  function Parse(b: Bytes): Option<Lists> {
    if |b| < 8 || GetU32(b) != STATE_MAGIC || GetU32(b[4..]) != STATE_VERSION then None
    else
      match TakeList(b[8..])
      case None => None
      case Some((full, rest)) =>
        match TakeList(rest)
        case None => None
        case Some((appending, rest')) =>
          match TakeList(rest')
          case None => None
          case Some((idle, _)) => Some(Lists(full, appending, idle))
  }

  lemma U32RoundTrip(v: U32, rest: Bytes)
    ensures |PutLe(v, 4) + rest| >= 4 && GetU32(PutLe(v, 4) + rest) == v
    ensures (PutLe(v, 4) + rest)[4..] == rest
  {
    Widths();
    LeRoundTrip(v, 4);
    assert (PutLe(v, 4) + rest)[..4] == PutLe(v, 4);
  }

  lemma FrontU32(b: Bytes)
    requires |b| >= 4
    ensures PutLe(GetU32(b), 4) + b[4..] == b
  {
    LeReadWrite(b[..4]);
    assert b == b[..4] + b[4..];
  }

  /** Taking `n` ids succeeds with `ids` exactly when the bytes start with their encoding. */
  lemma {:induction false} TakeIdsIff(b: Bytes, ids: Ids, rest: Bytes)
    ensures TakeIds(b, |ids|) == Some((ids, rest)) <==> b == PutIds(ids) + rest
    decreases |ids|
  {
    hide GetU32, PutLe;
    if ids == [] {
      assert PutIds(ids) + rest == rest;
    } else {
      if TakeIds(b, |ids|) == Some((ids, rest)) {
        FrontU32(b);
        TakeIdsIff(b[4..], ids[1..], rest);
        assert PutIds(ids) + rest == PutLe(ids[0], 4) + (PutIds(ids[1..]) + rest);
      }
      if b == PutIds(ids) + rest {
        assert b == PutLe(ids[0], 4) + (PutIds(ids[1..]) + rest);
        U32RoundTrip(ids[0], PutIds(ids[1..]) + rest);
        TakeIdsIff(b[4..], ids[1..], rest);
        assert [ids[0]] + ids[1..] == ids;
      }
    }
  }

  lemma TakeListIff(b: Bytes, ids: Ids, rest: Bytes)
    requires |ids| < TWO_32
    ensures TakeList(b) == Some((ids, rest)) <==> b == PutList(ids) + rest
  {
    hide GetU32, PutLe, TakeIds, PutIds;
    if TakeList(b) == Some((ids, rest)) {
      FrontU32(b);
      TakeIdsIff(b[4..], ids, rest);
      assert PutList(ids) + rest == PutLe(|ids|, 4) + (PutIds(ids) + rest);
    }
    if b == PutList(ids) + rest {
      assert b == PutLe(|ids|, 4) + (PutIds(ids) + rest);
      U32RoundTrip(|ids|, PutIds(ids) + rest);
      TakeIdsIff(b[4..], ids, rest);
    }
  }

  /** A file is accepted with given lists exactly when it starts with their encoding. */
  lemma ParseIff(b: Bytes, l: Lists)
    requires |l.full| < TWO_32 && |l.appending| < TWO_32 && |l.idle| < TWO_32
    ensures Parse(b) == Some(l) <==> Encode(l) <= b
  {
    if Parse(b) == Some(l) {
      ParseIsPrefix(b, l);
    }
    if Encode(l) <= b {
      EncodeParses(l, b[|Encode(l)|..]);
      assert b == Encode(l) + b[|Encode(l)|..];
    }
  }

  lemma EncodeParses(l: Lists, rest: Bytes)
    requires |l.full| < TWO_32 && |l.appending| < TWO_32 && |l.idle| < TWO_32
    ensures Parse(Encode(l) + rest) == Some(l)
  {
    hide GetU32, PutLe, TakeList, PutList;
    var b3 := PutList(l.idle) + rest;
    var b2 := PutList(l.appending) + b3;
    var b1 := PutList(l.full) + b2;
    var b0 := PutLe(STATE_VERSION, 4) + b1;
    var b := Encode(l) + rest;
    assert b == PutLe(STATE_MAGIC, 4) + b0;
    U32RoundTrip(STATE_MAGIC, b0);
    U32RoundTrip(STATE_VERSION, b1);
    assert b[8..] == b0[4..] == b1;
    TakeListIff(b1, l.full, b2);
    TakeListIff(b2, l.appending, b3);
    TakeListIff(b3, l.idle, rest);
  }

  lemma ParseIsPrefix(b: Bytes, l: Lists)
    requires Parse(b) == Some(l)
    requires |l.full| < TWO_32 && |l.appending| < TWO_32 && |l.idle| < TWO_32
    ensures Encode(l) <= b
  {
    hide GetU32, PutLe, TakeList, PutList;
    FrontU32(b);
    FrontU32(b[4..]);
    assert b[4..][4..] == b[8..];
    var r1 := TakeList(b[8..]).value.1;
    TakeListIff(b[8..], l.full, r1);
    var r2 := TakeList(r1).value.1;
    TakeListIff(r1, l.appending, r2);
    var r3 := TakeList(r2).value.1;
    TakeListIff(r2, l.idle, r3);
    assert b == Encode(l) + r3;
  }

  // ---------------------------------------------------------------- parsing with a cursor

  /** Reads one list at position `p`. */
  method ReadIds(buf: Bytes, p: nat) returns (r: Option<Ids>, p': nat)
    requires p <= |buf|
    ensures p' <= |buf|
    ensures match TakeList(buf[p..])
            case None => r == None
            case Some((ids, rest)) => r == Some(ids) && rest == buf[p'..]
  {
    p' := p;
    if p + 4 > |buf| {
      return None, p;
    }
    var count := GetU32(buf[p..]);
    assert buf[p..][4..] == buf[p + 4..];
    p' := p + 4;
    var ids: Ids := [];
    var i := 0;
    PrependNothing(TakeIds(buf[p'..], count));
    while i < count
      invariant 0 <= i <= count && p <= p' <= |buf|
      invariant TakeList(buf[p..]) == Prepend(ids, TakeIds(buf[p'..], count - i))
    {
      hide GetU32;
      if p' + 4 > |buf| {
        return None, p';
      }
      var v := GetU32(buf[p'..]);
      assert buf[p'..][4..] == buf[p' + 4..];
      PrependOne(ids, v, TakeIds(buf[p' + 4..], count - i - 1));
      ids := ids + [v];
      p' := p' + 4;
      i := i + 1;
    }
    assert ids + [] == ids;
    r := Some(ids);
  }

  function Prepend(ids: Ids, r: Option<(Ids, Bytes)>): Option<(Ids, Bytes)> {
    match r
    case None => None
    case Some((more, rest)) => Some((ids + more, rest))
  }

  lemma PrependNothing(r: Option<(Ids, Bytes)>)
    ensures Prepend([], r) == r
  {
    if r.Some? {
      assert [] + r.value.0 == r.value.0;
    }
  }

  lemma PrependOne(ids: Ids, v: U32, r: Option<(Ids, Bytes)>)
    ensures Prepend(ids, Prepend([v], r)) == Prepend(ids + [v], r)
  {
    if r.Some? {
      assert ids + ([v] + r.value.0) == (ids + [v]) + r.value.0;
    }
  }

  method ReadLists(buf: Bytes) returns (r: Option<Lists>)
    ensures r == Parse(buf)
  {
    hide GetU32, TakeList;
    if |buf| < 8 || GetU32(buf) != STATE_MAGIC || GetU32(buf[4..]) != STATE_VERSION {
      return None;
    }
    var full, p := ReadIds(buf, 8);
    if full == None {
      return None;
    }
    var appending, q := ReadIds(buf, p);
    if appending == None {
      return None;
    }
    var idle, _ := ReadIds(buf, q);
    if idle == None {
      return None;
    }
    return Some(Lists(full.value, appending.value, idle.value));
  }
}
