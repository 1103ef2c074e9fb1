/**
  The common shape of the two text parsers in backend/utils.js: the text is cut into
  blocks, each opened by a marker line and running to the next marker or to the end;
  every block may store one entry under a key taken from its marker line, and a later
  block overrides an earlier one with the same key.  Lines before the first marker
  belong to no block.

  `Assemble` is the block-wise reference definition; the parsers' line-by-line
  scans are proved equal to it in their own modules.
 */
module Blocks {
  import opened Optional

  /** The index of the last marker line, if there is one. */
  function LastMarker(lines: seq<string>, isMarker: string -> bool): (r: Option<nat>)
    ensures r.Some? ==> r.value < |lines| && isMarker(lines[r.value])
    ensures r.Some? ==> forall i :: r.value < i < |lines| ==> !isMarker(lines[i])
    ensures r.None? ==> forall i :: 0 <= i < |lines| ==> !isMarker(lines[i])
    decreases |lines|
  {
    if |lines| == 0 then None
    else if isMarker(lines[|lines| - 1]) then Some(|lines| - 1)
    else LastMarker(lines[..|lines| - 1], isMarker)
  }

  /** A marker with no marker after it is the last one. */
  lemma LastMarkerUnique(lines: seq<string>, isMarker: string -> bool, j: nat)
    requires j < |lines| && isMarker(lines[j])
    requires forall i :: j < i < |lines| ==> !isMarker(lines[i])
    ensures LastMarker(lines, isMarker) == Some(j)
  {
    var r := LastMarker(lines, isMarker);
  }

  /**
    The entries of the blocks of `lines`, later blocks overriding earlier ones:
    `key(marker)` names the entry and `value(marker, body)` gives its content, or
    `None` when the block stores nothing.
   */
  function Assemble(lines: seq<string>, isMarker: string -> bool,
                    key: string -> string,
                    value: (string, seq<string>) -> Option<string>): map<string, string>
    decreases |lines|
  {
    match LastMarker(lines, isMarker)
    case None => map[]
    case Some(j) =>
      var before := Assemble(lines[..j], isMarker, key, value);
      match value(lines[j], lines[j + 1..])
      case None => before
      case Some(v) => before[key(lines[j]) := v]
  }

  /** The first marker at or after `i`, or the end of the lines. */
  function NextMarker(lines: seq<string>, isMarker: string -> bool, i: nat): (e: nat)
    requires i <= |lines|
    ensures i <= e <= |lines|
    ensures e == |lines| || isMarker(lines[e])
    ensures forall k :: i <= k < e ==> !isMarker(lines[k])
    decreases |lines| - i
  {
    if i == |lines| || isMarker(lines[i]) then i else NextMarker(lines, isMarker, i + 1)
  }

  /** Lines `j` up to (not including) `e` form one block: a marker and the lines up to the next marker or the end. */
  ghost predicate BlockSpan(lines: seq<string>, isMarker: string -> bool, j: int, e: int) {
    && 0 <= j < e <= |lines|
    && isMarker(lines[j])
    && (e == |lines| || isMarker(lines[e]))
    && (forall i :: j < i < e ==> !isMarker(lines[i]))
  }

  /** Every marker opens a block. */
  lemma MarkerOpensSpan(lines: seq<string>, isMarker: string -> bool, j: nat)
    requires j < |lines| && isMarker(lines[j])
    ensures BlockSpan(lines, isMarker, j, NextMarker(lines, isMarker, j + 1))
  {
  }

  /** Every block of a prefix that ends at a marker is a block of the whole, with the same body. */
  lemma SpansOfPrefix(lines: seq<string>, isMarker: string -> bool, p: nat)
    requires p <= |lines|
    requires p == |lines| || isMarker(lines[p])
    ensures forall j, e :: BlockSpan(lines[..p], isMarker, j, e) <==> BlockSpan(lines, isMarker, j, e) && e <= p
    ensures forall j, e :: BlockSpan(lines[..p], isMarker, j, e) ==> lines[..p][j] == lines[j] && lines[..p][j + 1..e] == lines[j + 1..e]
  {
    forall j, e | BlockSpan(lines, isMarker, j, e) && e <= p
      ensures BlockSpan(lines[..p], isMarker, j, e)
    {
      assert forall i :: j < i < e ==> lines[..p][i] == lines[i];
    }
    forall j, e | BlockSpan(lines[..p], isMarker, j, e)
      ensures BlockSpan(lines, isMarker, j, e)
    {
      assert forall i :: j < i < e ==> lines[..p][i] == lines[i];
    }
  }

  /** Around the last marker `m`, the blocks are those of the lines before `m`, plus the one `m` opens. */
  lemma SpansAroundLast(lines: seq<string>, isMarker: string -> bool, m: nat)
    requires LastMarker(lines, isMarker) == Some(m)
    ensures BlockSpan(lines, isMarker, m, |lines|)
    ensures forall j, e :: BlockSpan(lines, isMarker, j, e) ==> (j == m && e == |lines|) || (j < m && e <= m)
  {
    forall j, e | BlockSpan(lines, isMarker, j, e)
      ensures (j == m && e == |lines|) || (j < m && e <= m)
    {
    }
  }

  /** A key is stored exactly when some block with that key stores something. */
  lemma {:induction false} AssembleKeys(lines: seq<string>, isMarker: string -> bool,
                                        key: string -> string,
                                        value: (string, seq<string>) -> Option<string>)
    ensures forall k :: k in Assemble(lines, isMarker, key, value) <==>
              exists j, e :: BlockSpan(lines, isMarker, j, e) && key(lines[j]) == k
                             && value(lines[j], lines[j + 1..e]).Some?
    decreases |lines|
  {
    var a := Assemble(lines, isMarker, key, value);
    match LastMarker(lines, isMarker)
    case None =>
    case Some(m) =>
      var pre := lines[..m];
      var before := Assemble(pre, isMarker, key, value);
      AssembleKeys(pre, isMarker, key, value);
      SpansOfPrefix(lines, isMarker, m);
      SpansAroundLast(lines, isMarker, m);
      assert lines[m + 1..|lines|] == lines[m + 1..];
      var last := value(lines[m], lines[m + 1..]);
      assert a == (if last.Some? then before[key(lines[m]) := last.value] else before);
      forall k | k in a
        ensures exists j, e :: BlockSpan(lines, isMarker, j, e) && key(lines[j]) == k
                               && value(lines[j], lines[j + 1..e]).Some?
      {
        if !(last.Some? && key(lines[m]) == k) {
          var j, e :| BlockSpan(pre, isMarker, j, e) && key(pre[j]) == k
                      && value(pre[j], pre[j + 1..e]).Some?;
          assert BlockSpan(lines, isMarker, j, e);
        }
      }
      forall k, j, e | BlockSpan(lines, isMarker, j, e) && key(lines[j]) == k
                       && value(lines[j], lines[j + 1..e]).Some?
        ensures k in a
      {
        if j < m {
          assert BlockSpan(pre, isMarker, j, e);
          assert k in before;
        }
      }
  }

  /** Of the blocks at or after `j` that share `k`'s key, none stores anything except the one at `j`. */
  ghost predicate LastWithKey(lines: seq<string>, isMarker: string -> bool,
                        key: string -> string,
                        value: (string, seq<string>) -> Option<string>, k: string, j: int)
  {
    forall j2, e2 :: BlockSpan(lines, isMarker, j2, e2) && j < j2 && key(lines[j2]) == k
                     ==> value(lines[j2], lines[j2 + 1..e2]).None?
  }

  /**
    A stored entry comes from the last block with that key that stores something:
    its value is what that block's body gives.
   */
  lemma {:induction false} AssembleValue(lines: seq<string>, isMarker: string -> bool,
                                         key: string -> string,
                                         value: (string, seq<string>) -> Option<string>,
                                         k: string)
    requires k in Assemble(lines, isMarker, key, value)
    ensures exists j, e :: BlockSpan(lines, isMarker, j, e) && key(lines[j]) == k
                           && value(lines[j], lines[j + 1..e]) == Some(Assemble(lines, isMarker, key, value)[k])
                           && LastWithKey(lines, isMarker, key, value, k, j)
    decreases |lines|
  {
    var a := Assemble(lines, isMarker, key, value);
    var m := LastMarker(lines, isMarker).value;
    var pre := lines[..m];
    SpansOfPrefix(lines, isMarker, m);
    SpansAroundLast(lines, isMarker, m);
    assert lines[m + 1..|lines|] == lines[m + 1..];
    var last := value(lines[m], lines[m + 1..]);
    if last.Some? && key(lines[m]) == k {
      assert LastWithKey(lines, isMarker, key, value, k, m);
    } else {
      assert k in Assemble(pre, isMarker, key, value);
      AssembleValue(pre, isMarker, key, value, k);
      var j, e :| BlockSpan(pre, isMarker, j, e) && key(pre[j]) == k
                  && value(pre[j], pre[j + 1..e]) == Some(Assemble(pre, isMarker, key, value)[k])
                  && LastWithKey(pre, isMarker, key, value, k, j);
      assert pre[j] == lines[j];
      forall j2, e2 | BlockSpan(lines, isMarker, j2, e2) && j < j2 && key(lines[j2]) == k
        ensures value(lines[j2], lines[j2 + 1..e2]).None?
      {
        if j2 < m {
          assert BlockSpan(pre, isMarker, j2, e2);
          assert pre[j2] == lines[j2];
        }
      }
      assert LastWithKey(lines, isMarker, key, value, k, j);
    }
  }

  /** Lines before the first marker contribute nothing. */
  lemma {:induction false} AssemblePreamble(pre: seq<string>, lines: seq<string>, isMarker: string -> bool,
                                            key: string -> string,
                                            value: (string, seq<string>) -> Option<string>)
    requires forall i :: 0 <= i < |pre| ==> !isMarker(pre[i])
    ensures Assemble(pre + lines, isMarker, key, value) == Assemble(lines, isMarker, key, value)
    decreases |lines|
  {
    match LastMarker(lines, isMarker)
    case None =>
      PreambleNoMarker(pre, lines, isMarker);
    case Some(m) =>
      PreambleLastMarker(pre, lines, isMarker, m);
      AssemblePreamble(pre, lines[..m], isMarker, key, value);
  }

  lemma PreambleNoMarker(pre: seq<string>, lines: seq<string>, isMarker: string -> bool)
    requires forall i :: 0 <= i < |pre| ==> !isMarker(pre[i])
    requires LastMarker(lines, isMarker).None?
    ensures LastMarker(pre + lines, isMarker).None?
  {
    var all := pre + lines;
    forall i | 0 <= i < |all|
      ensures !isMarker(all[i])
    {
      if i >= |pre| {
        assert all[i] == lines[i - |pre|];
      }
    }
  }

  /** A marker-free preamble shifts the last marker by its length and leaves the blocks as they are. */
  lemma PreambleLastMarker(pre: seq<string>, lines: seq<string>, isMarker: string -> bool, m: nat)
    requires LastMarker(lines, isMarker) == Some(m)
    ensures var n := |pre| + m;
            && LastMarker(pre + lines, isMarker) == Some(n)
            && (pre + lines)[n] == lines[m]
            && (pre + lines)[..n] == pre + lines[..m]
            && (pre + lines)[n + 1..] == lines[m + 1..]
  {
    PreambleLastIndex(pre, lines, isMarker, m);
    ConcatSlices(pre, lines, m);
  }

  lemma ConcatSlices(pre: seq<string>, lines: seq<string>, m: nat)
    requires m < |lines|
    ensures (pre + lines)[|pre| + m] == lines[m]
    ensures (pre + lines)[..|pre| + m] == pre + lines[..m]
    ensures (pre + lines)[|pre| + m + 1..] == lines[m + 1..]
  {
  }

  lemma PreambleLastIndex(pre: seq<string>, lines: seq<string>, isMarker: string -> bool, m: nat)
    requires LastMarker(lines, isMarker) == Some(m)
    ensures LastMarker(pre + lines, isMarker) == Some(|pre| + m)
  {
    var all := pre + lines;
    var n := |pre| + m;
    assert all[n] == lines[m];
    forall i | n < i < |all|
      ensures !isMarker(all[i])
    {
      assert all[i] == lines[i - |pre|];
    }
    LastMarkerUnique(all, isMarker, n);
  }

  /** A block runs from its marker to the next marker. */
  lemma SpanEndsAtNext(lines: seq<string>, isMarker: string -> bool, j: int, e: int)
    requires BlockSpan(lines, isMarker, j, e)
    ensures e == NextMarker(lines, isMarker, j + 1)
  {
  }

  /** `AssembleKeys` with each block named by its marker. */
  lemma AssembleKeysByMarker(lines: seq<string>, isMarker: string -> bool,
                             key: string -> string,
                             value: (string, seq<string>) -> Option<string>, k: string)
    ensures k in Assemble(lines, isMarker, key, value) <==>
            exists j :: 0 <= j < |lines| && isMarker(lines[j]) && key(lines[j]) == k
                        && value(lines[j], lines[j + 1..NextMarker(lines, isMarker, j + 1)]).Some?
  {
    AssembleKeys(lines, isMarker, key, value);
    if k in Assemble(lines, isMarker, key, value) {
      var j, e :| BlockSpan(lines, isMarker, j, e) && key(lines[j]) == k && value(lines[j], lines[j + 1..e]).Some?;
      SpanEndsAtNext(lines, isMarker, j, e);
    } else {
      forall j | 0 <= j < |lines| && isMarker(lines[j]) && key(lines[j]) == k
        ensures value(lines[j], lines[j + 1..NextMarker(lines, isMarker, j + 1)]).None?
      {
        MarkerOpensSpan(lines, isMarker, j);
      }
    }
  }

  /** `AssembleValue` with each block named by its marker `j`. */
  lemma AssembleValueByMarker(lines: seq<string>, isMarker: string -> bool,
                              key: string -> string,
                              value: (string, seq<string>) -> Option<string>, k: string)
      returns (j: nat)
    requires k in Assemble(lines, isMarker, key, value)
    ensures j < |lines| && isMarker(lines[j]) && key(lines[j]) == k
    ensures value(lines[j], lines[j + 1..NextMarker(lines, isMarker, j + 1)])
            == Some(Assemble(lines, isMarker, key, value)[k])
    ensures forall j2 :: j < j2 < |lines| && isMarker(lines[j2]) && key(lines[j2]) == k ==>
                           value(lines[j2], lines[j2 + 1..NextMarker(lines, isMarker, j2 + 1)]).None?
  {
    AssembleValue(lines, isMarker, key, value, k);
    var e;
    j, e :| BlockSpan(lines, isMarker, j, e) && key(lines[j]) == k
            && value(lines[j], lines[j + 1..e]) == Some(Assemble(lines, isMarker, key, value)[k])
            && LastWithKey(lines, isMarker, key, value, k, j);
    SpanEndsAtNext(lines, isMarker, j, e);
    forall j2 | j < j2 < |lines| && isMarker(lines[j2]) && key(lines[j2]) == k
      ensures value(lines[j2], lines[j2 + 1..NextMarker(lines, isMarker, j2 + 1)]).None?
    {
      MarkerOpensSpan(lines, isMarker, j2);
    }
  }

  /** A block appended after the others adds its entry, overriding an earlier one with the same key. */
  lemma AssembleLastBlock(pre: seq<string>, marker: string, body: seq<string>, isMarker: string -> bool,
                          key: string -> string,
                          value: (string, seq<string>) -> Option<string>)
    requires isMarker(marker)
    requires forall i :: 0 <= i < |body| ==> !isMarker(body[i])
    ensures Assemble(pre + ([marker] + body), isMarker, key, value)
            == match value(marker, body)
               case None => Assemble(pre, isMarker, key, value)
               case Some(v) => Assemble(pre, isMarker, key, value)[key(marker) := v]
  {
    var lines := pre + ([marker] + body);
    var n := |pre|;
    assert lines[n] == marker;
    forall i | n < i < |lines|
      ensures !isMarker(lines[i])
    {
      assert lines[i] == body[i - n - 1];
    }
    LastMarkerUnique(lines, isMarker, n);
    assert lines[..n] == pre;
    assert lines[n + 1..] == body;
  }

  /** A line that is not a marker keeps the last marker and extends its block. */
  lemma LastMarkerSnocOther(prev: seq<string>, x: string, isMarker: string -> bool, j: nat)
    requires LastMarker(prev, isMarker) == Some(j)
    requires !isMarker(x)
    ensures LastMarker(prev + [x], isMarker) == Some(j)
    ensures (prev + [x])[..j] == prev[..j]
    ensures (prev + [x])[j] == prev[j]
    ensures (prev + [x])[j + 1..] == prev[j + 1..] + [x]
  {
    var lines := prev + [x];
    assert lines[..|prev|] == prev;
    assert lines[..j] == prev[..j];
  }

  /** Before any marker, a line that is not a marker leaves the lines without one. */
  lemma LastMarkerSnocNone(prev: seq<string>, x: string, isMarker: string -> bool)
    requires LastMarker(prev, isMarker).None?
    requires !isMarker(x)
    ensures LastMarker(prev + [x], isMarker).None?
  {
    assert (prev + [x])[..|prev|] == prev;
  }

  /** A marker line is the last marker of the lines it ends, and opens an empty block. */
  lemma LastMarkerSnocMarker(prev: seq<string>, x: string, isMarker: string -> bool)
    requires isMarker(x)
    ensures LastMarker(prev + [x], isMarker) == Some(|prev|)
    ensures (prev + [x])[..|prev|] == prev
    ensures (prev + [x])[|prev|] == x
    ensures (prev + [x])[|prev| + 1..] == []
  {
    assert (prev + [x])[..|prev|] == prev;
  }
}
