/**
 * A file cut into 80-byte slots, and the loop that reads it: a record that is
 * all zero is an empty slot and is skipped, any other record is decoded under
 * its slot number. The loop is stated for any record decoder; the binary font
 * file instantiates it with its glyph parser.
 */
module SlotFile {
  import opened Bytes

  /** Bytes `[80 k, 80 k + 80)`: the record of slot `k`. */
  function Slot(data: seq<byte>, k: nat): (r: seq<byte>)
    requires (k + 1) * 80 <= |data|
    ensures |r| == 80
  {
    data[k * 80 .. k * 80 + 80]
  }

  /** The decoder accepts every full record. */
  ghost predicate Decodes<V>(decode: (seq<byte>, int) --> V) {
    forall b: seq<byte>, i: int :: |b| == 80 ==> decode.requires(b, i)
  }

  /** The decoded non-zero records among slots `k .. count - 1`, keyed by slot. */
  function SlotMap<V>(data: seq<byte>, k: nat, count: nat, decode: (seq<byte>, int) --> V): map<int, V>
    requires count * 80 <= |data| && Decodes(decode)
  {
    map i: nat | k <= i < count && !AllZero(Slot(data, i)) :: decode(Slot(data, i), i)
  }

  /** The read loop from slot `k` on: skip an all-zero record, otherwise store the decoded one under its slot. */
  function ReadRecords<V>(data: seq<byte>, k: nat, count: nat, acc: map<int, V>, decode: (seq<byte>, int) --> V): map<int, V>
    requires count * 80 <= |data| && Decodes(decode)
    decreases count - k
  {
    if k >= count then acc
    else if AllZero(Slot(data, k)) then ReadRecords(data, k + 1, count, acc, decode)
    else ReadRecords(data, k + 1, count, acc[k := decode(Slot(data, k), k)], decode)
  }

  lemma SlotMapSkip<V>(data: seq<byte>, k: nat, count: nat, decode: (seq<byte>, int) --> V)
    requires count * 80 <= |data| && Decodes(decode) && k < count && AllZero(Slot(data, k))
    ensures SlotMap(data, k, count, decode) == SlotMap(data, k + 1, count, decode)
  {
    var all := SlotMap(data, k, count, decode);
    var rest := SlotMap(data, k + 1, count, decode);
    forall i | i in all ensures i in rest && all[i] == rest[i] {
      assert i != k;
    }
    MapsEqual(all, rest);
  }

  lemma SlotMapAdd<V>(data: seq<byte>, k: nat, count: nat, decode: (seq<byte>, int) --> V)
    requires count * 80 <= |data| && Decodes(decode) && k < count && !AllZero(Slot(data, k))
    ensures SlotMap(data, k, count, decode) == SlotMap(data, k + 1, count, decode)[k := decode(Slot(data, k), k)]
  {
    var all := SlotMap(data, k, count, decode);
    var rest := SlotMap(data, k + 1, count, decode)[k := decode(Slot(data, k), k)];
    forall i | i in rest ensures i in all && all[i] == rest[i] {
    }
    MapsEqual(all, rest);
  }

  lemma MapsEqual<K, V>(a: map<K, V>, b: map<K, V>)
    requires forall k :: k in a <==> k in b
    requires forall k :: k in b ==> a[k] == b[k]
    ensures a == b
  {
  }

  lemma MapAddPut<K, V>(a: map<K, V>, b: map<K, V>, k: K, v: V)
    requires k !in b
    ensures a[k := v] + b == a + b[k := v]
  {
  }

  lemma EmptyUnion<K, V>(m: map<K, V>)
    ensures map[] + m == m
  {
  }

  lemma ReadRecordsAdds<V>(data: seq<byte>, k: nat, count: nat, acc: map<int, V>, decode: (seq<byte>, int) --> V)
    requires count * 80 <= |data| && Decodes(decode) && k < count && !AllZero(Slot(data, k))
    requires var v := decode(Slot(data, k), k);
      ReadRecords(data, k + 1, count, acc[k := v], decode) == acc[k := v] + SlotMap(data, k + 1, count, decode)
    ensures ReadRecords(data, k, count, acc, decode) == acc + SlotMap(data, k, count, decode)
  {
    SlotMapAdd(data, k, count, decode);
    MapAddPut(acc, SlotMap(data, k + 1, count, decode), k, decode(Slot(data, k), k));
  }

  /**
   * The read loop adds to `acc` exactly the non-zero records, each decoded
   * under its slot number; later slots overwrite what `acc` held for them.
   */
  lemma {:induction false} ReadRecordsClosed<V>(data: seq<byte>, k: nat, count: nat, acc: map<int, V>, decode: (seq<byte>, int) --> V)
    requires count * 80 <= |data| && Decodes(decode)
    ensures ReadRecords(data, k, count, acc, decode) == acc + SlotMap(data, k, count, decode)
    decreases count - k
  {
    if k >= count {
      assert SlotMap(data, k, count, decode) == map[];
    } else if AllZero(Slot(data, k)) {
      ReadRecordsClosed(data, k + 1, count, acc, decode);
      SlotMapSkip(data, k, count, decode);
    } else {
      ReadRecordsClosed(data, k + 1, count, acc[k := decode(Slot(data, k), k)], decode);
      ReadRecordsAdds(data, k, count, acc, decode);
    }
  }

  /** Records equal to the first `n` slots of `data`, run together, are its first `n * 80` bytes. */
  lemma SlotsInPlace(rs: seq<seq<byte>>, data: seq<byte>, n: nat)
    requires |rs| == n && n * 80 <= |data|
    requires forall j: nat :: j < n ==> rs[j] == Slot(data, j)
    ensures Concat(rs) == data[..n * 80]
  {
    forall j | 0 <= j < |rs|
      ensures 80 * j + 80 <= |data| && rs[j] == data[80 * j .. 80 * j + 80]
    {
      assert rs[j] == Slot(data, j);
    }
    ConcatOfBlocks(rs, 80, data);
  }

  /** A slot area of `n` records holds exactly `n` records. */
  lemma SlotArea(n: nat)
    ensures (n * 80) / 80 == n
    ensures (n * 80) % 80 == 0
  {
  }

  lemma {:induction false} SlotOfPrefix(a: seq<byte>, b: seq<byte>, k: nat)
    requires (k + 1) * 80 <= |a|
    ensures Slot(a + b, k) == Slot(a, k)
  {
  }
}
