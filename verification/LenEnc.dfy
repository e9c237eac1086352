/** Length-encoded integers: one encoder (dump package) and two decoders (dump and replication packages). */
module LenEnc {
  import opened Results
  import opened Bytes

  /** The replication package's decoder: the value and the position after it; None is its `false`. */
  function ReadLenEncInt(data: bytes, pos: nat): Option<(nat, nat)> {
    if pos >= |data| then None
    else if data[pos] == 0xfc then
      if pos + 2 >= |data| then None else Some((LE(data[pos + 1..pos + 3]), pos + 3))
    else if data[pos] == 0xfd then
      if pos + 3 >= |data| then None else Some((LE(data[pos + 1..pos + 4]), pos + 4))
    else if data[pos] == 0xfe then
      if pos + 8 >= |data| then None else Some((LE(data[pos + 1..pos + 9]), pos + 9))
    else Some((data[pos], pos + 1))
  }

  /** The dump package's decoder: the value, whether it is NULL, and the bytes read. */
  function ReadLengthEncodedInteger(b: bytes): Result<(nat, bool, nat)> {
    if b == [] || b[0] == 0xfb then Ok((0, true, 1))
    else if b[0] == 0xfc then
      var v :- Take(b, 1, 2);
      Ok((LE(v), false, 3))
    else if b[0] == 0xfd then
      var v :- Take(b, 1, 3);
      Ok((LE(v), false, 4))
    else if b[0] == 0xfe then
      var v :- Take(b, 1, 8);
      Ok((LE(v), false, 9))
    else Ok((b[0], false, 1))
  }

  function AppendLengthEncodedInteger(b: bytes, n: nat): bytes {
    if n <= 250 then b + [n]
    else if n <= 0xffff then b + [0xfc] + PutLE(n, 2)
    else if n <= 0xffffff then b + [0xfd] + PutLE(n, 3)
    else b + [0xfe] + PutLE(n, 8)
  }

  /** The counts for which a single byte is read as itself: 0xfc, 0xfd and 0xfe announce a longer one. */
  predicate OneByteCount(n: nat) {
    n <= 251 || n == 255
  }

  lemma OneByteRead(data: bytes, pos: nat)
    ensures var r := ReadLenEncInt(data, pos);
            r.Some? ==> pos < r.value.1 <= |data|
                        && (r.value.1 == pos + 1 <==> OneByteCount(data[pos]))
                        && (r.value.1 == pos + 1 ==> r.value.0 == data[pos])
    ensures pos < |data| && OneByteCount(data[pos]) ==> ReadLenEncInt(data, pos) == Some((data[pos] as nat, pos + 1))
  {
    hide LE;
  }

  /** Both decoders read an appended uint64 back, whatever stands before and after it. */
  lemma LenEncRoundTrip(pre: bytes, n: nat, post: bytes)
    requires n < Pow256(8)
    ensures var enc := AppendLengthEncodedInteger(pre, n);
            && ReadLenEncInt(enc + post, |pre|) == Some((n, |enc|))
            && ReadLengthEncodedInteger((enc + post)[|pre|..]) == Ok((n, false, |enc| - |pre|))
  {
    Pow256Values();
    var enc := AppendLengthEncodedInteger(pre, n);
    var data := enc + post;
    if n > 250 {
      var w := if n <= 0xffff then 2 else if n <= 0xffffff then 3 else 8;
      LEPut(n, w);
      assert data[|pre| + 1..|pre| + 1 + w] == PutLE(n, w);
      assert data[|pre|..][1..1 + w] == PutLE(n, w);
    }
  }

  /** The decoders agree except in two cases. Lead byte 0xfb is NULL for one and the number 251 for the other;
      and where there is no byte left one fails and the other answers NULL and one byte read. */
  lemma DecodersAgree(data: bytes, pos: nat)
    requires pos <= |data|
    ensures var here, there := ReadLenEncInt(data, pos), ReadLengthEncodedInteger(data[pos..]);
            && ((here.Some? <==> there.Ok?) <==> pos < |data|)
            && (pos == |data| ==> there == Ok((0, true, 1)))
            && (here.Some? ==>
                  (there == Ok((here.value.0, false, here.value.1 - pos)) <==> data[pos] != 0xfb))
            && (here.Some? && data[pos] == 0xfb ==>
                  here == Some((251, pos + 1)) && there == Ok((0, true, 1)))
  {
    if pos < |data| {
      var w := if data[pos] == 0xfc then 2 else if data[pos] == 0xfd then 3 else if data[pos] == 0xfe then 8 else 0;
      if pos + w < |data| {
        assert data[pos..][1..1 + w] == data[pos + 1..pos + 1 + w];
      }
    }
  }
}
