/** A Reed-Solomon code as its law: k data bytes get m parity bytes, and any k of the k + m recover all
    of them. A shard is coded byte position by byte position. */
module ErasureCode {
  import opened Bytes

  datatype Option<T> = Some(value: T) | None

  datatype Code = Code(k: nat, m: nat, parity: seq<byte> -> seq<byte>, recover: seq<Option<byte>> -> seq<byte>)

  function Codeword(c: Code, data: seq<byte>): seq<byte> {
    data + c.parity(data)
  }

  ghost function Present<T>(s: seq<Option<T>>): nat {
    if s == [] then 0 else (if s[|s| - 1].Some? then 1 else 0) + Present(s[..|s| - 1])
  }

  /** What survived agrees with a whole. */
  ghost predicate Partial<T(!new)>(s: seq<Option<T>>, whole: seq<T>) {
    |s| == |whole| && forall i :: 0 <= i < |s| && s[i].Some? ==> s[i].value == whole[i]
  }

  ghost predicate Recovers(c: Code, data: seq<byte>, survived: seq<Option<byte>>) {
    |c.parity(data)| == c.m &&
    (|survived| == c.k + c.m && Present(survived) >= c.k ==> |c.recover(survived)| == c.k + c.m) &&
    (Partial(survived, Codeword(c, data)) && Present(survived) >= c.k ==> c.recover(survived) == Codeword(c, data))
  }

  /** The law of the code. */
  ghost predicate Lawful(c: Code) {
    c.k > 0 && c.m > 0 && forall data, survived :: |data| == c.k ==> Recovers(c, data, survived)
  }
}
