/** The grid packets of src/rgridproto.cpp: client beans and streams, their serializers and their parser. Numbers are in
    network byte order. */
module GridProtocol {
  import opened Bytes
  import opened Options

  const HEADER_SIZE := 4
  const MAX_BODYLEN := 4095
  const MAX_GRID_NAME_LEN := 11
  const TYPE_CLT_BEAN := 4
  const TYPE_STREAM := 5
  const BEAN_TYPE_IN_SESSION := 1

  function Power(n: nat): (p: nat)
    ensures p > 0
  {
    if n == 0 then 1 else 256 * Power(n - 1)
  }

  /** The n octets of x, most significant first. */
  function Be(x: nat, n: nat): (r: seq<Byte>)
    ensures |r| == n
  {
    if n == 0 then [] else Be(x / 256, n - 1) + [x % 256]
  }

  function FromBe(s: seq<Byte>): nat {
    if s == [] then 0 else FromBe(s[..|s| - 1]) * 256 + s[|s| - 1]
  }

  lemma {:induction false} FromBeBe(x: nat, n: nat)
    requires x < Power(n)
    ensures FromBe(Be(x, n)) == x
  {
    if n > 0 {
      FromBeBe(x / 256, n - 1);
      assert Be(x, n)[..n - 1] == Be(x / 256, n - 1);
    }
  }

  lemma Powers()
    ensures Power(2) == 0x1_0000 && Power(4) == 0x1_0000_0000 && Power(8) == 0x1_0000_0000_0000_0000
  {
    assert Power(4) == 256 * (256 * Power(2));
    assert Power(8) == 256 * (256 * (256 * (256 * Power(4))));
  }

  datatype ByteArrayType = Data | GridName | SessionId

  /** A byte array at place ptr, and the place after it; None if it is not all there or its length is not allowed. */
  function ReadArray(b: seq<Byte>, ptr: nat, t: ByteArrayType): (r: Option<(seq<Byte>, nat)>)
    requires ptr <= |b|
    ensures r.Some? ==> r.value.1 <= |b| && r.value.1 == ptr + |r.value.0| + (match t case GridName => 1 case Data => 2 case SessionId => 0)
  {
    match t
    case GridName =>
      if ptr + 1 <= |b| && ptr + 1 + b[ptr] <= |b| && 0 < b[ptr] <= MAX_GRID_NAME_LEN then Some((b[ptr + 1..ptr + 1 + b[ptr]], ptr + 1 + b[ptr])) else None
    case Data =>
      if ptr + 2 <= |b| && ptr + 2 + FromBe(b[ptr..ptr + 2]) <= |b| then
        Some((b[ptr + 2..ptr + 2 + FromBe(b[ptr..ptr + 2])], ptr + 2 + FromBe(b[ptr..ptr + 2])))
      else None
    case SessionId =>
      if ptr + 16 <= |b| then Some((b[ptr..ptr + 16], ptr + 16)) else None
  }

  /** How a byte array is written. */
  function WriteArray(s: seq<Byte>, t: ByteArrayType): seq<Byte>
    requires t == GridName ==> |s| < 256
  {
    match t
    case GridName => [|s|] + s
    case Data => Be(|s|, 2) + s
    case SessionId => s
  }

  predicate Fits(s: seq<Byte>, t: ByteArrayType) {
    match t
    case GridName => 0 < |s| <= MAX_GRID_NAME_LEN
    case Data => |s| < 0x1_0000
    case SessionId => |s| == 16
  }

  /** Bytes w are at place ptr. */
  ghost predicate At(b: seq<Byte>, ptr: nat, w: seq<Byte>) {
    ptr + |w| <= |b| && b[ptr..ptr + |w|] == w
  }

  lemma AtParts(b: seq<Byte>, ptr: nat, v: seq<Byte>, w: seq<Byte>)
    requires At(b, ptr, v + w)
    ensures At(b, ptr, v) && At(b, ptr + |v|, w)
  {
    var s := b[ptr..ptr + |v + w|];
    assert s[..|v|] == v && s[|v|..] == w;
  }

  lemma AtJoin(b: seq<Byte>, ptr: nat, v: seq<Byte>, w: seq<Byte>)
    requires At(b, ptr, v) && At(b, ptr + |v|, w)
    ensures At(b, ptr, v + w)
  {
    assert b[ptr..ptr + |v| + |w|] == b[ptr..ptr + |v|] + b[ptr + |v|..ptr + |v| + |w|];
  }

  /** Reading an array gives back what was written. */
  lemma ReadWritten(b: seq<Byte>, ptr: nat, s: seq<Byte>, t: ByteArrayType)
    requires Fits(s, t) && At(b, ptr, WriteArray(s, t))
    ensures ReadArray(b, ptr, t) == Some((s, ptr + |WriteArray(s, t)|))
  {
    match t
    case GridName =>
      AtParts(b, ptr, [|s|], s);
      assert b[ptr] == b[ptr..ptr + 1][0];
    case Data =>
      AtParts(b, ptr, Be(|s|, 2), s);
      Powers();
      FromBeBe(|s|, 2);
    case SessionId =>
  }

  /** Octets are those of the number read from them. */
  lemma {:induction false} BeFromBe(s: seq<Byte>)
    ensures FromBe(s) < Power(|s|) && Be(FromBe(s), |s|) == s
  {
    if s != [] {
      BeFromBe(s[..|s| - 1]);
      assert s == s[..|s| - 1] + [s[|s| - 1]];
    }
  }

  lemma NumberAt(b: seq<Byte>, ptr: nat, n: nat)
    requires ptr + n <= |b|
    ensures FromBe(b[ptr..ptr + n]) < Power(n) && At(b, ptr, Be(FromBe(b[ptr..ptr + n]), n))
  {
    BeFromBe(b[ptr..ptr + n]);
  }

  /** What is read is there as it is written. */
  lemma ReadIsThere(b: seq<Byte>, ptr: nat, t: ByteArrayType)
    requires ptr <= |b| && ReadArray(b, ptr, t).Some?
    ensures Fits(ReadArray(b, ptr, t).value.0, t) && At(b, ptr, WriteArray(ReadArray(b, ptr, t).value.0, t))
  {
    var s := ReadArray(b, ptr, t).value.0;
    match t
    case GridName =>
      assert b[ptr..ptr + 1] == [|s|];
      AtJoin(b, ptr, [|s|], s);
    case Data =>
      NumberAt(b, ptr, 2);
      Powers();
      AtJoin(b, ptr, Be(|s|, 2), s);
    case SessionId =>
  }

  /** A number of n octets at place ptr. */
  function ReadNumber(b: seq<Byte>, ptr: nat, n: nat): Option<(nat, nat)> {
    if ptr + n > |b| then None else Some((FromBe(b[ptr..ptr + n]), ptr + n))
  }

  lemma ReadNumberWritten(b: seq<Byte>, ptr: nat, x: nat, n: nat)
    requires x < Power(n) && At(b, ptr, Be(x, n))
    ensures ReadNumber(b, ptr, n) == Some((x, ptr + n))
  {
    FromBeBe(x, n);
  }

  datatype ClientBean = ClientBean(beanId: nat, sender: seq<Byte>, beanType: nat, age: nat, body: seq<Byte>)

  datatype StreamInfo = StreamInfo(age: nat, sessionId: seq<Byte>, targetClt: seq<Byte>, fromClt: seq<Byte>, data: seq<Byte>,
                                   offsetOfRecvedClts: nat, numOfRecvedClts: nat, firstRecvedClt: seq<Byte>)

  datatype Stream = Empty | Filled(info: StreamInfo)

  /** Parses the body of a client bean. */
  method ParseClientBean(b: seq<Byte>) returns (r: Option<ClientBean>)
    ensures r == BeanOf(b)
  {
    var beanId := ReadNumber(b, 0, 8);
    if beanId.None? {
      return None;
    }
    var sender := ReadArray(b, beanId.value.1, GridName);
    if sender.None? {
      return None;
    }
    var beanType := ReadNumber(b, sender.value.1, 2);
    if beanType.None? {
      return None;
    }
    var age := ReadNumber(b, beanType.value.1, 1);
    if age.None? {
      return None;
    }
    var ptr := age.value.1 + 1;  // a reserved octet
    if ptr > |b| {
      return None;
    }
    var body := ReadArray(b, ptr, Data);
    if body.None? {
      return None;
    }
    r := Some(ClientBean(beanId.value.0, sender.value.0, beanType.value.0, age.value.0, body.value.0));
  }

  /** The fields are there one after another: an eight-octet id, the sender, a type, an age, a reserved octet, the body. */
  function BeanOf(b: seq<Byte>): Option<ClientBean> {
    if |b| < 8 then None else
    var sender := ReadArray(b, 8, GridName);
    if sender.None? || sender.value.1 + 4 > |b| then None else
    var p := sender.value.1;
    var body := ReadArray(b, p + 4, Data);
    if body.None? then None else
    Some(ClientBean(FromBe(b[0..8]), sender.value.0, FromBe(b[p..p + 2]), FromBe(b[p + 2..p + 3]), body.value.0))
  }

  /** Parses the body of a stream. */
  method ParseStream(b: seq<Byte>) returns (r: Option<Stream>)
    ensures r == StreamOf(b)
  {
    if |b| == 0 {
      return None;
    }
    var flag := b[0];
    if flag % 2 == 1 {
      return Some(Empty);
    }
    var hasTargetClt := flag / 2 % 2 == 1;
    var age := ReadNumber(b, 1, 1);
    if age.None? {
      return None;
    }
    var sessionId := ReadArray(b, age.value.1, SessionId);
    if sessionId.None? {
      return None;
    }
    var ptr, target := sessionId.value.1, [];
    if hasTargetClt {
      var t := ReadArray(b, ptr, GridName);
      if t.None? {
        return None;
      }
      target, ptr := t.value.0, t.value.1;
    }
    var from := ReadArray(b, ptr, GridName);
    if from.None? {
      return None;
    }
    var data := ReadArray(b, from.value.1, Data);
    if data.None? {
      return None;
    }
    var num := ReadNumber(b, data.value.1, 2);
    if num.None? {
      return None;
    }
    var first := [];
    if num.value.0 > 0 {
      var f := ReadArray(b, num.value.1, GridName);
      if f.None? {
        return None;
      }
      first := f.value.0;
    }
    r := Some(Filled(StreamInfo(age.value.0, sessionId.value.0, target, from.value.0, data.value.0, data.value.1, num.value.0, first)));
  }

  /** The fields of a stream that is not empty: an age, the session, a target if the flag says so, the origin, the data,
      and the clients that received it. */
  function StreamOf(b: seq<Byte>): Option<Stream> {
    if |b| == 0 then None else
    if b[0] % 2 == 1 then Some(Empty) else
    if |b| < 18 then None else
    var target := if b[0] / 2 % 2 == 1 then ReadArray(b, 18, GridName) else Some(([], 18));
    if target.None? then None else
    var from := ReadArray(b, target.value.1, GridName);
    if from.None? then None else
    var data := ReadArray(b, from.value.1, Data);
    if data.None? || data.value.1 + 2 > |b| then None else
    var p := data.value.1;
    var num := FromBe(b[p..p + 2]);
    var first := if num > 0 then ReadArray(b, p + 2, GridName) else Some(([], p + 2));
    if first.None? then None else
    Some(Filled(StreamInfo(FromBe(b[1..2]), b[2..18], target.value.0, from.value.0, data.value.0, p, num, first.value.0)))
  }

  /** Parts written one after another. */
  function Join(parts: seq<seq<Byte>>): seq<Byte> {
    if parts == [] then [] else Join(parts[..|parts| - 1]) + parts[|parts| - 1]
  }

  /** Where part k begins. */
  function Offset(parts: seq<seq<Byte>>, k: nat): nat
    requires k <= |parts|
  {
    if k == 0 then 0 else Offset(parts, k - 1) + |parts[k - 1]|
  }

  lemma {:induction false} OffsetPrefix(parts: seq<seq<Byte>>, n: nat, k: nat)
    requires k <= n <= |parts|
    ensures Offset(parts[..n], k) == Offset(parts, k)
  {
    if k > 0 {
      OffsetPrefix(parts, n, k - 1);
    }
  }

  lemma {:induction false} JoinLength(parts: seq<seq<Byte>>)
    ensures |Join(parts)| == Offset(parts, |parts|)
  {
    if parts != [] {
      var n := |parts| - 1;
      JoinLength(parts[..n]);
      OffsetPrefix(parts, n, n);
    }
  }

  /** Part k is at its offset. */
  lemma {:induction false} PartAt(parts: seq<seq<Byte>>, k: nat)
    requires k < |parts|
    ensures At(Join(parts), Offset(parts, k), parts[k])
  {
    var n := |parts| - 1;
    JoinLength(parts[..n]);
    OffsetPrefix(parts, n, n);
    if k < n {
      PartAt(parts[..n], k);
      OffsetPrefix(parts, n, k);
      AtMore(Join(parts[..n]), parts[n], Offset(parts, k), parts[k]);
    }
  }

  lemma AtMore(b: seq<Byte>, more: seq<Byte>, ptr: nat, w: seq<Byte>)
    requires At(b, ptr, w)
    ensures At(b + more, ptr, w)
  {
    assert (b + more)[ptr..ptr + |w|] == b[ptr..ptr + |w|];
  }

  ghost predicate PartIsAt(b: seq<Byte>, parts: seq<seq<Byte>>, k: nat)
    requires k < |parts|
  {
    At(b, Offset(parts, k), parts[k])
  }

  ghost predicate AllAt(b: seq<Byte>, parts: seq<seq<Byte>>) {
    forall k: nat {:trigger PartIsAt(b, parts, k)} :: k < |parts| ==> PartIsAt(b, parts, k)
  }

  /** Octets that begin with parts have every part at its offset. */
  lemma BeginsAllAt(b: seq<Byte>, parts: seq<seq<Byte>>)
    requires Join(parts) <= b
    ensures AllAt(b, parts)
  {
    forall k: nat | k < |parts|
      ensures PartIsAt(b, parts, k)
    {
      PartAt(parts, k);
      assert b == Join(parts) + b[|Join(parts)|..];
      AtMore(Join(parts), b[|Join(parts)|..], Offset(parts, k), parts[k]);
    }
  }

  /** Octets with every part at its offset begin with the parts. */
  lemma {:induction false} AllAtBegins(b: seq<Byte>, parts: seq<seq<Byte>>, n: nat)
    requires AllAt(b, parts) && n <= |parts|
    ensures Join(parts[..n]) <= b
  {
    if n > 0 {
      var front := parts[..n - 1];
      AllAtBegins(b, parts, n - 1);
      JoinLength(front);
      OffsetPrefix(parts, n - 1, n - 1);
      assert PartIsAt(b, parts, n - 1);
      assert parts[..n] == front + [parts[n - 1]];
      JoinNext(front, parts[n - 1]);
      Grows(b, Join(front), parts[n - 1]);
    }
  }

  lemma Grows(b: seq<Byte>, front: seq<Byte>, w: seq<Byte>)
    requires front <= b && At(b, |front|, w)
    ensures front + w <= b
  {
  }

  lemma JoinNext(parts: seq<seq<Byte>>, w: seq<Byte>)
    ensures Join(parts + [w]) == Join(parts) + w
  {
    assert (parts + [w])[..|parts|] == parts;
  }

  lemma {:induction false} JoinConcat(p: seq<seq<Byte>>, q: seq<seq<Byte>>)
    ensures Join(p + q) == Join(p) + Join(q)
    decreases |q|
  {
    if q == [] {
      assert p + q == p;
    } else {
      var n := |q| - 1;
      assert (p + q)[..|p + q| - 1] == p + q[..n];
      JoinConcat(p, q[..n]);
    }
  }

  /** The body of a client bean as it is written; the reserved octet is not set. */
  function BeanParts(bean: ClientBean, reserved: Byte): (parts: seq<seq<Byte>>)
    requires |bean.sender| < 256 && bean.age < 256
    ensures |parts| == 6
  {
    [Be(bean.beanId, 8), WriteArray(bean.sender, GridName), Be(bean.beanType, 2), [bean.age], [reserved], WriteArray(bean.body, Data)]
  }

  predicate ValidBean(bean: ClientBean) {
    bean.beanId < Power(8) && Fits(bean.sender, GridName) && bean.beanType < Power(2) && bean.age < 256 && Fits(bean.body, Data)
  }

  lemma BeanOffsets(bean: ClientBean, reserved: Byte)
    requires |bean.sender| < 256 && bean.age < 256
    ensures var parts, p := BeanParts(bean, reserved), 9 + |bean.sender|;
            && Offset(parts, 0) == 0 && Offset(parts, 1) == 8 && Offset(parts, 2) == p && Offset(parts, 3) == p + 2 && Offset(parts, 4) == p + 3
            && Offset(parts, 5) == p + 4
  {
    var parts := BeanParts(bean, reserved);
    assert Offset(parts, 1) == 8;
    assert Offset(parts, 2) == 9 + |bean.sender|;
    assert Offset(parts, 3) == 11 + |bean.sender|;
    assert Offset(parts, 4) == 12 + |bean.sender|;
  }

  /** The body begins with the parts of a valid bean. */
  ghost predicate HasBean(b: seq<Byte>, bean: ClientBean) {
    ValidBean(bean) && exists reserved: Byte :: Join(BeanParts(bean, reserved)) <= b
  }

  /** Parsing finds the bean a body begins with, and fails exactly if it begins with none. */
  lemma BeanIffThere(b: seq<Byte>, bean: ClientBean)
    ensures BeanOf(b) == Some(bean) <==> HasBean(b, bean)
  {
    if BeanOf(b) == Some(bean) {
      BeanIsThere(b, bean);
    }
    if HasBean(b, bean) {
      var reserved: Byte :| Join(BeanParts(bean, reserved)) <= b;
      BeanParsed(b, bean, reserved) by {
        BeanAt(b, bean, reserved);
      }
    }
  }

  lemma BeanAt(b: seq<Byte>, bean: ClientBean, reserved: Byte)
    requires |bean.sender| < 256 && bean.age < 256
    ensures Join(BeanParts(bean, reserved)) <= b <==>
            && At(b, 0, Be(bean.beanId, 8)) && At(b, 8, WriteArray(bean.sender, GridName)) && At(b, 9 + |bean.sender|, Be(bean.beanType, 2))
            && At(b, 11 + |bean.sender|, [bean.age]) && At(b, 12 + |bean.sender|, [reserved]) && At(b, 13 + |bean.sender|, WriteArray(bean.body, Data))
  {
    var parts := BeanParts(bean, reserved);
    BeanOffsets(bean, reserved);
    if Join(parts) <= b {
      BeginsAllAt(b, parts);
      assert PartIsAt(b, parts, 0) && PartIsAt(b, parts, 1) && PartIsAt(b, parts, 2) && PartIsAt(b, parts, 3) && PartIsAt(b, parts, 4)
        && PartIsAt(b, parts, 5);
    }
    if At(b, 0, parts[0]) && At(b, 8, parts[1]) && At(b, 9 + |bean.sender|, parts[2]) && At(b, 11 + |bean.sender|, parts[3])
       && At(b, 12 + |bean.sender|, parts[4]) && At(b, 13 + |bean.sender|, parts[5]) {
      assert AllAt(b, parts);
      AllAtBegins(b, parts, 6);
      assert parts[..6] == parts;
    }
  }

  lemma BeanIsThere(b: seq<Byte>, bean: ClientBean)
    requires BeanOf(b) == Some(bean)
    ensures HasBean(b, bean)
  {
    var p := 9 + |bean.sender|;
    NumberAt(b, 0, 8);
    ReadIsThere(b, 8, GridName);
    NumberAt(b, p, 2);
    NumberAt(b, p + 2, 1);
    ReadIsThere(b, p + 4, Data);
    Power1();
    OctetAt(b, p + 2);
    OctetAt(b, p + 3);
    BeanAt(b, bean, b[p + 3]);
  }

  lemma Power1()
    ensures Power(1) == 256
  {
    assert Power(0) == 1;
  }

  lemma OctetAt(b: seq<Byte>, ptr: nat)
    requires ptr < |b|
    ensures At(b, ptr, [b[ptr]]) && FromBe(b[ptr..ptr + 1]) == b[ptr]
  {
    assert b[ptr..ptr + 1] == [b[ptr]];
    OneOctet(b, ptr, b[ptr]);
  }

  /** The parts of a bean and where they are. */
  lemma BeanFields(bean: ClientBean, reserved: Byte)
    requires ValidBean(bean)
    ensures var b, p := Join(BeanParts(bean, reserved)), 9 + |bean.sender|;
            && At(b, 0, Be(bean.beanId, 8)) && At(b, 8, WriteArray(bean.sender, GridName)) && At(b, p, Be(bean.beanType, 2))
            && At(b, p + 2, [bean.age]) && At(b, p + 3, [reserved]) && At(b, p + 4, WriteArray(bean.body, Data))
  {
    BeanAt(Join(BeanParts(bean, reserved)), bean, reserved);
  }

  /** Parsing a client bean gives back what was written. */
  lemma BeanRoundTrip(bean: ClientBean, reserved: Byte)
    requires ValidBean(bean)
    ensures BeanOf(Join(BeanParts(bean, reserved))) == Some(bean)
  {
    BeanFields(bean, reserved);
    BeanParsed(Join(BeanParts(bean, reserved)), bean, reserved);
  }

  lemma BeanParsed(b: seq<Byte>, bean: ClientBean, reserved: Byte)
    requires ValidBean(bean)
    requires At(b, 0, Be(bean.beanId, 8)) && At(b, 8, WriteArray(bean.sender, GridName)) && At(b, 9 + |bean.sender|, Be(bean.beanType, 2))
    requires At(b, 11 + |bean.sender|, [bean.age]) && At(b, 12 + |bean.sender|, [reserved]) && At(b, 13 + |bean.sender|, WriteArray(bean.body, Data))
    ensures BeanOf(b) == Some(bean)
  {
    var p := 9 + |bean.sender|;
    ReadNumberWritten(b, 0, bean.beanId, 8);
    ReadWritten(b, 8, bean.sender, GridName);
    ReadNumberWritten(b, p, bean.beanType, 2);
    OneOctet(b, p + 2, bean.age);
    ReadWritten(b, p + 4, bean.body, Data);
  }

  lemma OneOctet(b: seq<Byte>, ptr: nat, x: Byte)
    requires At(b, ptr, [x])
    ensures b[ptr] == x && FromBe(b[ptr..ptr + 1]) == x
  {
    assert b[ptr..ptr + 1] == [x] && [x][..0] == [];
  }

  /** The body of an in-session bean: the session, one client, and its timeout. */
  function InSessionParts(sessionId: seq<Byte>, client: seq<Byte>, timeout: nat): seq<seq<Byte>>
    requires |client| < 256
  {
    [sessionId, Be(1, 2), WriteArray(client, GridName), Be(timeout, 4)]
  }

  lemma InSessionLength(sessionId: seq<Byte>, client: seq<Byte>, timeout: nat)
    requires |sessionId| == 16 && |client| < 256
    ensures |Join(InSessionParts(sessionId, client, timeout))| == 23 + |client|
  {
    var parts := InSessionParts(sessionId, client, timeout);
    JoinLength(parts);
    assert Offset(parts, 1) == 16;
    assert Offset(parts, 2) == 18;
    assert Offset(parts, 3) == 19 + |client|;
    assert Offset(parts, 4) == 23 + |client|;
  }

  /** The part of a stream before its data: a flag, an age, the session, the target if there is one, and the origin. */
  function PartOne(sessionId: seq<Byte>, target: seq<Byte>, from: seq<Byte>): (parts: seq<seq<Byte>>)
    requires |target| < 256 && |from| < 256
    ensures |parts| == 5
  {
    [[if target == [] then 0 else 2], [0], sessionId, if target == [] then [] else WriteArray(target, GridName), WriteArray(from, GridName)]
  }

  /** The body of a stream: part one, the data with its length, and no client that received it. */
  function StreamParts(sessionId: seq<Byte>, target: seq<Byte>, from: seq<Byte>, data: seq<Byte>): (parts: seq<seq<Byte>>)
    requires |target| < 256 && |from| < 256
    ensures |parts| == 7
  {
    PartOne(sessionId, target, from) + [WriteArray(data, Data), Be(0, 2)]
  }

  predicate ValidStream(sessionId: seq<Byte>, target: seq<Byte>, from: seq<Byte>, data: seq<Byte>) {
    Fits(sessionId, SessionId) && (target == [] || Fits(target, GridName)) && Fits(from, GridName) && Fits(data, Data)
  }

  /** How many octets the target takes. */
  function TargetSize(target: seq<Byte>): nat {
    if target == [] then 0 else 1 + |target|
  }

  /** The parts of any stream that is not empty. */
  function StreamBody(flag: Byte, info: StreamInfo): (parts: seq<seq<Byte>>)
    requires SmallInfo(info)
    ensures |parts| == 8
  {
    [[flag], [info.age], info.sessionId, if info.targetClt == [] then [] else WriteArray(info.targetClt, GridName),
     WriteArray(info.fromClt, GridName), WriteArray(info.data, Data), Be(info.numOfRecvedClts, 2),
     if info.numOfRecvedClts == 0 then [] else WriteArray(info.firstRecvedClt, GridName)]
  }

  predicate SmallInfo(info: StreamInfo) {
    info.age < 256 && |info.targetClt| < 256 && |info.fromClt| < 256 && |info.firstRecvedClt| < 256
  }

  predicate ValidInfo(info: StreamInfo) {
    && info.age < 256 && ValidStream(info.sessionId, info.targetClt, info.fromClt, info.data) && info.numOfRecvedClts < Power(2)
    && (if info.numOfRecvedClts > 0 then Fits(info.firstRecvedClt, GridName) else info.firstRecvedClt == [])
    && info.offsetOfRecvedClts == 21 + TargetSize(info.targetClt) + |info.fromClt| + |info.data|
  }

  /** Of the flag, bit 0 says that a stream is empty, and bit 1 that it has a target. */
  predicate FlagFor(flag: Byte, info: StreamInfo) {
    flag % 2 == 0 && (flag / 2 % 2 == 1 <==> info.targetClt != [])
  }

  /** The body begins with the parts of a valid stream. */
  ghost predicate HasStream(b: seq<Byte>, s: Stream) {
    match s
    case Empty => |b| > 0 && b[0] % 2 == 1
    case Filled(info) => ValidInfo(info) && exists flag: Byte :: FlagFor(flag, info) && Join(StreamBody(flag, info)) <= b
  }

  lemma StreamOffsets(flag: Byte, info: StreamInfo)
    requires SmallInfo(info) && |info.sessionId| == 16
    ensures var parts, p := StreamBody(flag, info), 18 + TargetSize(info.targetClt);
            && Offset(parts, 0) == 0 && Offset(parts, 1) == 1 && Offset(parts, 2) == 2 && Offset(parts, 3) == 18 && Offset(parts, 4) == p
            && Offset(parts, 5) == p + 1 + |info.fromClt| && Offset(parts, 6) == p + 3 + |info.fromClt| + |info.data|
            && Offset(parts, 7) == p + 5 + |info.fromClt| + |info.data|
  {
    var parts, p := StreamBody(flag, info), 18 + TargetSize(info.targetClt);
    assert Offset(parts, 1) == 1;
    assert Offset(parts, 2) == 2;
    assert Offset(parts, 3) == 18;
    assert Offset(parts, 4) == p;
    assert Offset(parts, 5) == p + 1 + |info.fromClt|;
    assert Offset(parts, 6) == p + 3 + |info.fromClt| + |info.data|;
  }

  /** The parts are at the places where the parser looks for them. */
  ghost predicate StreamAt(b: seq<Byte>, parts: seq<seq<Byte>>, p: nat, q: nat, r: nat)
    requires |parts| == 8
  {
    && At(b, 0, parts[0]) && At(b, 1, parts[1]) && At(b, 2, parts[2]) && At(b, 18, parts[3]) && At(b, p, parts[4]) && At(b, q, parts[5])
    && At(b, r, parts[6]) && At(b, r + 2, parts[7])
  }

  lemma StreamBegins(b: seq<Byte>, flag: Byte, info: StreamInfo, p: nat, q: nat, r: nat)
    requires SmallInfo(info) && |info.sessionId| == 16
    requires p == 18 + TargetSize(info.targetClt) && q == p + 1 + |info.fromClt| && r == q + 2 + |info.data|
    ensures Join(StreamBody(flag, info)) <= b <==> StreamAt(b, StreamBody(flag, info), p, q, r)
  {
    var parts := StreamBody(flag, info);
    StreamOffsets(flag, info);
    if Join(parts) <= b {
      BeginsAllAt(b, parts);
      assert PartIsAt(b, parts, 0) && PartIsAt(b, parts, 1) && PartIsAt(b, parts, 2) && PartIsAt(b, parts, 3) && PartIsAt(b, parts, 4)
        && PartIsAt(b, parts, 5) && PartIsAt(b, parts, 6) && PartIsAt(b, parts, 7);
    }
    if StreamAt(b, parts, p, q, r) {
      assert AllAt(b, parts);
      AllAtBegins(b, parts, 8);
      assert parts[..8] == parts;
    }
  }

  lemma StreamParsed(b: seq<Byte>, flag: Byte, info: StreamInfo, p: nat, q: nat, r: nat)
    requires ValidInfo(info) && FlagFor(flag, info) && StreamAt(b, StreamBody(flag, info), p, q, r)
    requires p == 18 + TargetSize(info.targetClt) && q == p + 1 + |info.fromClt| && r == q + 2 + |info.data|
    ensures StreamOf(b) == Some(Filled(info))
  {
    HeadRead(b, flag, info, p);
    TailRead(b, info, p, q, r);
    ClientsRead(b, info, r, r + 2);
    ReadsStream(b, flag, info, p, q, r);
  }

  lemma HeadRead(b: seq<Byte>, flag: Byte, info: StreamInfo, p: nat)
    requires ValidInfo(info) && At(b, 0, [flag]) && At(b, 1, [info.age]) && At(b, 2, info.sessionId)
    requires p == 18 + TargetSize(info.targetClt) && At(b, 18, if info.targetClt == [] then [] else WriteArray(info.targetClt, GridName))
    ensures 18 <= |b| && b[0] == flag && b[1] == info.age && b[2..18] == info.sessionId
    ensures info.targetClt != [] ==> ReadArray(b, 18, GridName) == Some((info.targetClt, p))
  {
    OneOctet(b, 0, flag);
    OneOctet(b, 1, info.age);
    if info.targetClt != [] {
      ReadWritten(b, 18, info.targetClt, GridName);
    }
  }

  lemma TailRead(b: seq<Byte>, info: StreamInfo, p: nat, q: nat, r: nat)
    requires ValidInfo(info) && q == p + 1 + |info.fromClt| && r == q + 2 + |info.data|
    requires At(b, p, WriteArray(info.fromClt, GridName)) && At(b, q, WriteArray(info.data, Data))
    ensures ReadArray(b, p, GridName) == Some((info.fromClt, q)) && ReadArray(b, q, Data) == Some((info.data, r))
  {
    ReadWritten(b, p, info.fromClt, GridName);
    ReadWritten(b, q, info.data, Data);
  }

  lemma ClientsRead(b: seq<Byte>, info: StreamInfo, r: nat, next: nat)
    requires ValidInfo(info) && next == r + 2 && At(b, r, Be(info.numOfRecvedClts, 2))
    requires At(b, next, if info.numOfRecvedClts == 0 then [] else WriteArray(info.firstRecvedClt, GridName))
    ensures FromBe(b[r..next]) == info.numOfRecvedClts
    ensures info.numOfRecvedClts > 0 ==> ReadArray(b, next, GridName) == Some((info.firstRecvedClt, next + 1 + |info.firstRecvedClt|))
  {
    ReadNumberWritten(b, r, info.numOfRecvedClts, 2);
    if info.numOfRecvedClts > 0 {
      ReadWritten(b, next, info.firstRecvedClt, GridName);
    }
  }

  /** What the parser reads where it looks for the parts. */
  predicate Reads(b: seq<Byte>, flag: Byte, info: StreamInfo, p: nat, q: nat, r: nat) {
    && 18 <= |b| && p <= |b| && q <= |b| && r + 2 <= |b| && b[0] == flag && FlagFor(flag, info) && b[1] == info.age && b[2..18] == info.sessionId
    && (if info.targetClt == [] then p == 18 else ReadArray(b, 18, GridName) == Some((info.targetClt, p)))
    && ReadArray(b, p, GridName) == Some((info.fromClt, q)) && ReadArray(b, q, Data) == Some((info.data, r))
    && FromBe(b[r..r + 2]) == info.numOfRecvedClts && info.offsetOfRecvedClts == r
    && (if info.numOfRecvedClts == 0 then info.firstRecvedClt == []
        else ReadArray(b, r + 2, GridName) == Some((info.firstRecvedClt, r + 3 + |info.firstRecvedClt|)))
  }

  lemma ReadsStream(b: seq<Byte>, flag: Byte, info: StreamInfo, p: nat, q: nat, r: nat)
    requires Reads(b, flag, info, p, q, r)
    ensures StreamOf(b) == Some(Filled(info))
  {
    OctetAt(b, 1);
  }

  lemma StreamReads(b: seq<Byte>, info: StreamInfo, p: nat, q: nat, r: nat)
    requires StreamOf(b) == Some(Filled(info))
    requires p == 18 + TargetSize(info.targetClt) && q == p + 1 + |info.fromClt| && r == q + 2 + |info.data|
    ensures Reads(b, b[0], info, p, q, r)
  {
    OctetAt(b, 1);
  }

  lemma ReadsAreThere(b: seq<Byte>, flag: Byte, info: StreamInfo, p: nat, q: nat, r: nat)
    requires Reads(b, flag, info, p, q, r)
    requires p == 18 + TargetSize(info.targetClt) && q == p + 1 + |info.fromClt| && r == q + 2 + |info.data|
    ensures ValidInfo(info) && StreamAt(b, StreamBody(flag, info), p, q, r)
  {
    HeadIsThere(b, flag, info, p, q, r);
    TailIsThere(b, flag, info, p, q, r);
  }

  lemma HeadIsThere(b: seq<Byte>, flag: Byte, info: StreamInfo, p: nat, q: nat, r: nat)
    requires Reads(b, flag, info, p, q, r)
    ensures info.targetClt == [] || Fits(info.targetClt, GridName)
    ensures At(b, 0, [flag]) && At(b, 1, [info.age]) && At(b, 2, info.sessionId)
    ensures At(b, 18, if info.targetClt == [] then [] else WriteArray(info.targetClt, GridName))
  {
    OctetAt(b, 0);
    OctetAt(b, 1);
    if info.targetClt != [] {
      ReadIsThere(b, 18, GridName);
    }
  }

  lemma TailIsThere(b: seq<Byte>, flag: Byte, info: StreamInfo, p: nat, q: nat, r: nat)
    requires Reads(b, flag, info, p, q, r)
    ensures Fits(info.fromClt, GridName) && Fits(info.data, Data) && info.numOfRecvedClts < Power(2)
    ensures info.numOfRecvedClts > 0 ==> Fits(info.firstRecvedClt, GridName)
    ensures At(b, p, WriteArray(info.fromClt, GridName)) && At(b, q, WriteArray(info.data, Data)) && At(b, r, Be(info.numOfRecvedClts, 2))
    ensures At(b, r + 2, if info.numOfRecvedClts == 0 then [] else WriteArray(info.firstRecvedClt, GridName))
  {
    ReadIsThere(b, p, GridName);
    ReadIsThere(b, q, Data);
    NumberAt(b, r, 2);
    if info.numOfRecvedClts > 0 {
      ReadIsThere(b, r + 2, GridName);
    }
  }

  lemma StreamIsThere(b: seq<Byte>, info: StreamInfo)
    requires StreamOf(b) == Some(Filled(info))
    ensures HasStream(b, Filled(info))
  {
    var p := 18 + TargetSize(info.targetClt);
    var q := p + 1 + |info.fromClt|;
    var r := q + 2 + |info.data|;
    StreamReads(b, info, p, q, r);
    ReadsAreThere(b, b[0], info, p, q, r);
    StreamBegins(b, b[0], info, p, q, r);
  }

  /** Parsing finds the stream a body begins with, and fails exactly if it begins with none. */
  lemma StreamIffThere(b: seq<Byte>, s: Stream)
    ensures StreamOf(b) == Some(s) <==> HasStream(b, s)
  {
    match s
    case Empty =>
    case Filled(info) =>
      if StreamOf(b) == Some(s) {
        StreamIsThere(b, info);
      }
      if HasStream(b, s) {
        var flag: Byte :| FlagFor(flag, info) && Join(StreamBody(flag, info)) <= b;
        var p := 18 + TargetSize(info.targetClt);
        var q := p + 1 + |info.fromClt|;
        BegunParsed(b, flag, info, p, q, q + 2 + |info.data|);
      }
  }

  lemma BegunParsed(b: seq<Byte>, flag: Byte, info: StreamInfo, p: nat, q: nat, r: nat)
    requires ValidInfo(info) && FlagFor(flag, info) && Join(StreamBody(flag, info)) <= b
    requires p == 18 + TargetSize(info.targetClt) && q == p + 1 + |info.fromClt| && r == q + 2 + |info.data|
    ensures StreamOf(b) == Some(Filled(info))
  {
    StreamBegins(b, flag, info, p, q, r);
    StreamParsed(b, flag, info, p, q, r);
  }

  /** Parsing a stream gives back what was written, with age 0 and no receivers. */
  lemma StreamRoundTrip(sessionId: seq<Byte>, target: seq<Byte>, from: seq<Byte>, data: seq<Byte>)
    requires ValidStream(sessionId, target, from, data)
    ensures StreamOf(Join(StreamParts(sessionId, target, from, data))) ==
              Some(Filled(StreamInfo(0, sessionId, target, from, data, 21 + TargetSize(target) + |from| + |data|, 0, [])))
  {
    var flag: Byte := if target == [] then 0 else 2;
    var info := StreamInfo(0, sessionId, target, from, data, 21 + TargetSize(target) + |from| + |data|, 0, []);
    assert StreamBody(flag, info) == StreamParts(sessionId, target, from, data) + [[]];
    JoinNext(StreamParts(sessionId, target, from, data), []);
    Powers();
    assert HasStream(Join(StreamParts(sessionId, target, from, data)), Filled(info));
    StreamIffThere(Join(StreamParts(sessionId, target, from, data)), Filled(info));
  }

  /** The length in the header: twelve bits after the type. */
  function HeaderLength(b: seq<Byte>): nat
    requires |b| >= HEADER_SIZE
  {
    Join16(b[3], b[2] % 16)
  }

  predicate HasHeader(b: seq<Byte>, t: nat, bodylen: nat) {
    |b| >= HEADER_SIZE && b[0] == 0xFA && b[1] == 0xAF && b[2] / 16 == t && HeaderLength(b) == bodylen
  }

  /** Writes the header; the length has room for 4095. */
  method WriteHeader(buffer: array<Byte>, t: nat, bodylen: nat)
    requires buffer.Length >= HEADER_SIZE && t < 16 && bodylen <= MAX_BODYLEN
    modifies buffer
    ensures HasHeader(buffer[..], t, bodylen) && buffer[HEADER_SIZE..] == old(buffer[HEADER_SIZE..])
  {
    buffer[0] := 0xFA;
    buffer[1] := 0xAF;
    buffer[2] := t * 16 + bodylen / 256 % 16;
    buffer[3] := bodylen % 256;
  }

  /** Writes one more part of the body. */
  method Put(buffer: array<Byte>, ptr: nat, w: seq<Byte>, ghost parts: seq<seq<Byte>>) returns (next: nat)
    requires HEADER_SIZE <= ptr && ptr + |w| <= buffer.Length && buffer[HEADER_SIZE..ptr] == Join(parts)
    modifies buffer
    ensures next == ptr + |w| && buffer[HEADER_SIZE..next] == Join(parts + [w])
  {
    for k := 0 to |w|
      invariant buffer[..ptr] == old(buffer[..ptr])
      invariant forall j :: 0 <= j < k ==> buffer[ptr + j] == w[j]
    {
      buffer[ptr + k] := w[k];
    }
    next := ptr + |w|;
    assert buffer[HEADER_SIZE..ptr] == buffer[..ptr][HEADER_SIZE..] == old(buffer[..ptr])[HEADER_SIZE..];
    assert buffer[ptr..next] == w;
    assert buffer[HEADER_SIZE..next] == buffer[HEADER_SIZE..ptr] + buffer[ptr..next];
    JoinNext(parts, w);
  }

  method SerializeEmptyStream(buffer: array<Byte>) returns (n: nat)
    requires buffer.Length >= HEADER_SIZE + 1
    modifies buffer
    ensures n == HEADER_SIZE + 1 && HasHeader(buffer[..], TYPE_STREAM, 1) && StreamOf(buffer[HEADER_SIZE..n]) == Some(Empty)
  {
    buffer[4] := 1;
    n := HEADER_SIZE + 1;
    WriteHeader(buffer, TYPE_STREAM, 1);
    assert buffer[HEADER_SIZE..n] == buffer[HEADER_SIZE..][..1];
  }

  /** Writes part one behind the room for the header. */
  method SerializeMNodeStreamPartOne(sessionId: seq<Byte>, target: seq<Byte>, from: seq<Byte>, buffer: array<Byte>) returns (n: nat)
    requires Fits(sessionId, SessionId) && |target| < 256 && |from| < 256
    requires buffer.Length >= HEADER_SIZE + 19 + TargetSize(target) + |from|
    modifies buffer
    ensures n == HEADER_SIZE + 19 + TargetSize(target) + |from|
    ensures buffer[HEADER_SIZE..n] == Join(PartOne(sessionId, target, from))
  {
    ghost var parts: seq<seq<Byte>> := [];
    n := Put(buffer, HEADER_SIZE, [if target != [] then 2 else 0], parts);
    parts := parts + [[if target != [] then 2 else 0]];
    n := Put(buffer, n, [0], parts);
    parts := parts + [[0]];
    n := Put(buffer, n, sessionId, parts);
    parts := parts + [sessionId];
    if target != [] {
      n := Put(buffer, n, WriteArray(target, GridName), parts);
      parts := parts + [WriteArray(target, GridName)];
    } else {
      JoinNext(parts, []);
      parts := parts + [[]];
    }
    n := Put(buffer, n, WriteArray(from, GridName), parts);
    parts := parts + [WriteArray(from, GridName)];
    assert parts == PartOne(sessionId, target, from);
  }

  /** Ends a stream of which protolen octets are written: no receivers, and the header. */
  method SerializeMNodeStreamPartThree(buffer: array<Byte>, protolen: nat, ghost parts: seq<seq<Byte>>) returns (n: nat)
    requires HEADER_SIZE <= protolen && protolen + 2 <= buffer.Length && protolen + 2 <= HEADER_SIZE + MAX_BODYLEN
    requires buffer[HEADER_SIZE..protolen] == Join(parts)
    modifies buffer
    ensures n == protolen + 2 && buffer[HEADER_SIZE..n] == Join(parts + [Be(0, 2)])
    ensures HasHeader(buffer[..], TYPE_STREAM, n - HEADER_SIZE)
  {
    n := Put(buffer, protolen, Be(0, 2), parts);
    ghost var body := buffer[HEADER_SIZE..];
    WriteHeader(buffer, TYPE_STREAM, n - HEADER_SIZE);
    assert buffer[HEADER_SIZE..n] == body[..n - HEADER_SIZE];
  }

  /** Part one, the data with its length, and part three together are a stream that parses to its fields. */
  method SerializeStream(sessionId: seq<Byte>, target: seq<Byte>, from: seq<Byte>, data: seq<Byte>, buffer: array<Byte>) returns (n: nat)
    requires ValidStream(sessionId, target, from, data)
    requires 23 + TargetSize(target) + |from| + |data| <= MAX_BODYLEN && buffer.Length >= HEADER_SIZE + MAX_BODYLEN
    modifies buffer
    ensures HEADER_SIZE <= n <= buffer.Length && HasHeader(buffer[..], TYPE_STREAM, n - HEADER_SIZE)
    ensures StreamOf(buffer[HEADER_SIZE..n]) ==
              Some(Filled(StreamInfo(0, sessionId, target, from, data, 21 + TargetSize(target) + |from| + |data|, 0, [])))
  {
    ghost var one := PartOne(sessionId, target, from);
    n := SerializeMNodeStreamPartOne(sessionId, target, from, buffer);
    n := Put(buffer, n, WriteArray(data, Data), one);
    n := SerializeMNodeStreamPartThree(buffer, n, one + [WriteArray(data, Data)]);
    assert one + [WriteArray(data, Data)] + [Be(0, 2)] == StreamParts(sessionId, target, from, data);
    StreamRoundTrip(sessionId, target, from, data);
  }

  /** Writes a whole in-session bean; the header has its length, and parsing it gives back every field. */
  method SerializeInSessionBean(sender: seq<Byte>, beanid: nat, sessionId: seq<Byte>, client: seq<Byte>, timeout: nat, buffer: array<Byte>)
    returns (n: nat)
    requires Fits(sender, GridName) && Fits(client, GridName) && Fits(sessionId, SessionId) && beanid < Power(8) && timeout < Power(4)
    requires buffer.Length >= 64
    modifies buffer
    ensures HEADER_SIZE <= n <= buffer.Length && HasHeader(buffer[..], TYPE_CLT_BEAN, n - HEADER_SIZE)
    ensures BeanOf(buffer[HEADER_SIZE..n]) ==
              Some(ClientBean(beanid, sender, BEAN_TYPE_IN_SESSION, 0, Join(InSessionParts(sessionId, client, timeout))))
  {
    ghost var body, bean := InSessionParts(sessionId, client, timeout), ClientBean(beanid, sender, BEAN_TYPE_IN_SESSION, 0, Join(InSessionParts(sessionId, client, timeout)));
    ghost var reserved, front;
    n, reserved, front := PutBeanFields(beanid, sender, bean, buffer);
    n := PutInSessionBody(sessionId, client, timeout, buffer, n, front);
    InSessionLength(sessionId, client, timeout);
    Powers();
    BeanRoundTrip(bean, reserved);
    assert front + [WriteArray(bean.body, Data)] == BeanParts(bean, reserved);
    assert buffer[HEADER_SIZE..n] == Join(BeanParts(bean, reserved));
    FinishPacket(buffer, TYPE_CLT_BEAN, n);
  }

  /** Writes the header before a body that is there. */
  method FinishPacket(buffer: array<Byte>, t: nat, n: nat)
    requires HEADER_SIZE <= n <= buffer.Length && t < 16 && n - HEADER_SIZE <= MAX_BODYLEN
    modifies buffer
    ensures HasHeader(buffer[..], t, n - HEADER_SIZE) && buffer[HEADER_SIZE..n] == old(buffer[HEADER_SIZE..n])
  {
    WriteHeader(buffer, t, n - HEADER_SIZE);
    assert buffer[HEADER_SIZE..n] == buffer[HEADER_SIZE..][..n - HEADER_SIZE];
    assert old(buffer[HEADER_SIZE..n]) == old(buffer[HEADER_SIZE..])[..n - HEADER_SIZE];
  }

  /** Writes the fields of an in-session bean before its body, and leaves out the reserved octet. */
  method PutBeanFields(beanid: nat, sender: seq<Byte>, ghost bean: ClientBean, buffer: array<Byte>) returns (n: nat, ghost reserved: Byte, ghost front: seq<seq<Byte>>)
    requires bean.beanId == beanid && bean.sender == sender && bean.beanType == BEAN_TYPE_IN_SESSION && bean.age == 0
    requires Fits(sender, GridName) && buffer.Length >= 64
    modifies buffer
    ensures n == HEADER_SIZE + 13 + |sender| && front == BeanParts(bean, reserved)[..5] && buffer[HEADER_SIZE..n] == Join(front)
  {
    n := Put(buffer, HEADER_SIZE, Be(beanid, 8), []);
    front := [Be(beanid, 8)];
    n := Put(buffer, n, WriteArray(sender, GridName), front);
    front := front + [WriteArray(sender, GridName)];
    n := Put(buffer, n, Be(BEAN_TYPE_IN_SESSION, 2), front);
    front := front + [Be(BEAN_TYPE_IN_SESSION, 2)];
    n := Put(buffer, n, [0], front);
    front := front + [[0]];
    reserved := buffer[n];
    JoinNext(front, [reserved]);
    assert buffer[HEADER_SIZE..n + 1] == buffer[HEADER_SIZE..n] + [reserved];
    front := front + [[reserved]];
    n := n + 1;
    assert front == BeanParts(bean, reserved)[..5];
  }

  /** Writes the body of an in-session bean with its length before it. */
  method PutInSessionBody(sessionId: seq<Byte>, client: seq<Byte>, timeout: nat, buffer: array<Byte>, ptr: nat, ghost front: seq<seq<Byte>>) returns (n: nat)
    requires Fits(client, GridName) && Fits(sessionId, SessionId)
    requires HEADER_SIZE <= ptr <= 28 && buffer.Length >= 64 && buffer[HEADER_SIZE..ptr] == Join(front)
    modifies buffer
    ensures n == ptr + 25 + |client| && buffer[HEADER_SIZE..n] == Join(front + [WriteArray(Join(InSessionParts(sessionId, client, timeout)), Data)])
  {
    var bodylen := 23 + |client|;
    n := Put(buffer, ptr, Be(bodylen, 2), front);
    ghost var parts := front + [Be(bodylen, 2)];
    n := Put(buffer, n, sessionId, parts);
    parts := parts + [sessionId];
    n := Put(buffer, n, Be(1, 2), parts);
    parts := parts + [Be(1, 2)];
    n := Put(buffer, n, WriteArray(client, GridName), parts);
    parts := parts + [WriteArray(client, GridName)];
    n := Put(buffer, n, Be(timeout, 4), parts);
    InSessionJoined(front, sessionId, client, timeout, parts + [Be(timeout, 4)]);
  }

  lemma InSessionJoined(front: seq<seq<Byte>>, sessionId: seq<Byte>, client: seq<Byte>, timeout: nat, parts: seq<seq<Byte>>)
    requires |sessionId| == 16 && |client| < 256
    requires parts == front + [Be(23 + |client|, 2)] + [sessionId] + [Be(1, 2)] + [WriteArray(client, GridName)] + [Be(timeout, 4)]
    ensures Join(parts) == Join(front + [WriteArray(Join(InSessionParts(sessionId, client, timeout)), Data)])
  {
    var body := InSessionParts(sessionId, client, timeout);
    assert parts == front + [Be(23 + |client|, 2)] + body;
    InSessionLength(sessionId, client, timeout);
    BodyJoined(front, Be(23 + |client|, 2), body);
  }

  lemma BodyJoined(front: seq<seq<Byte>>, len: seq<Byte>, body: seq<seq<Byte>>)
    ensures Join(front + [len] + body) == Join(front + [len + Join(body)])
  {
    JoinConcat(front + [len], body);
    JoinNext(front, len);
    JoinNext(front, len + Join(body));
  }
}
