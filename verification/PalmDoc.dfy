/** PalmDOC decompression: literals, runs, back references and spaced characters. */
module PalmDoc {
  import opened HuffCodes

  datatype Token = Run(bytes: seq<int>) | Copy(distance: nat, length: nat) | Cut

  /** The token at `cursor`; a run may be cut short, and a back reference cut off is the last. */
  ghost function TokenAt(input: seq<int>, cursor: nat): Token
    requires IsBytes(input) && cursor < |input|
  {
    var b, rest := input[cursor], cursor + 1;
    if b == 0 || 9 <= b <= 127 then Run([b])
    else if b <= 8 then Run(input[rest..if rest + b <= |input| then rest + b else |input|])
    else if b >= 192 then Run([32, b - 128])
    else if rest >= |input| then Cut
    else
      var pair := b * 256 + input[rest];
      Copy(pair % 0x4000 / 8, pair % 8 + 3)
  }

  /** Where the token at `cursor` ends. */
  ghost function TokenEnd(input: seq<int>, cursor: nat): (r: nat)
    requires IsBytes(input) && cursor < |input|
    ensures cursor < r <= |input|
  {
    var t := TokenAt(input, cursor);
    if 1 <= input[cursor] <= 8 then cursor + 1 + |t.bytes| else if t.Copy? then cursor + 2 else cursor + 1
  }

  /** The tokens of the input from `cursor`. */
  ghost function Tokens(input: seq<int>, cursor: nat): seq<Token>
    requires IsBytes(input)
    decreases if cursor < |input| then |input| - cursor else 0
  {
    if cursor >= |input| then [] else [TokenAt(input, cursor)] + Tokens(input, TokenEnd(input, cursor))
  }

  /** The output grown byte by byte with what stands `distance` back; 0 where nothing does. */
  ghost function Grown(output: seq<int>, distance: nat, length: nat): (r: seq<int>)
    ensures |r| == |output| + length
    decreases length
  {
    if length == 0 then output
    else
      var before := Grown(output, distance, length - 1);
      before + [if 0 < distance <= |before| then before[|before| - distance] else 0]
  }

  /** Every new byte of a grown output repeats the one `distance` back, even where the copy overlaps itself. */
  lemma {:induction false} GrownRepeats(output: seq<int>, distance: nat, length: nat, i: nat)
    requires i < |output| + length
    ensures var g := Grown(output, distance, length);
      g[i] == if i < |output| then output[i] else if 0 < distance <= i then g[i - distance] else 0
  {
    if length > 0 {
      var before, after := Grown(output, distance, length - 1), Grown(output, distance, length);
      assert after == before + [if 0 < distance <= |before| then before[|before| - distance] else 0];
      if i < |before| { GrownRepeats(output, distance, length - 1, i); }
    }
  }

  ghost function Put(output: seq<int>, t: Token): seq<int> {
    match t
    case Run(bytes) => output + bytes
    case Copy(distance, length) => Grown(output, distance, length)
    case Cut => output
  }

  ghost function Unpack(output: seq<int>, ts: seq<Token>): seq<int>
    decreases |ts|
  {
    if ts == [] then output else Unpack(Put(output, ts[0]), ts[1..])
  }

  /** What a PalmDOC record means. */
  ghost function Meaning(input: seq<int>): seq<int>
    requires IsBytes(input)
  {
    Unpack([], Tokens(input, 0))
  }

  /** Passing one token. */
  lemma UnpackStep(input: seq<int>, cursor: nat, output: seq<int>)
    requires IsBytes(input) && cursor < |input|
    ensures Unpack(output, Tokens(input, cursor)) ==
      Unpack(Put(output, TokenAt(input, cursor)), Tokens(input, TokenEnd(input, cursor)))
  {
    var t, ts := TokenAt(input, cursor), Tokens(input, TokenEnd(input, cursor));
    assert ([t] + ts)[0] == t && ([t] + ts)[1..] == ts;
  }

  method CopyBack(output: seq<int>, distance: nat, length: nat) returns (longer: seq<int>)
    requires IsBytes(output)
    ensures longer == Grown(output, distance, length) && IsBytes(longer)
  {
    longer := output;
    for i := 0 to length
      invariant longer == Grown(output, distance, i) && IsBytes(longer)
    {
      var value := if 0 < distance <= |longer| then longer[|longer| - distance] else 0;
      longer := longer + [value];
    }
  }

  /** Decode a back reference; one that is cut off adds nothing. */
  method Reference(input: seq<int>, start: nat, output: seq<int>) returns (longer: seq<int>, cursor: nat)
    requires IsBytes(input) && start < |input| && 128 <= input[start] <= 191 && IsBytes(output)
    ensures longer == Put(output, TokenAt(input, start)) && cursor == TokenEnd(input, start)
    ensures IsBytes(longer) && |longer| <= |output| + 5 * (cursor - start)
  {
    cursor := start + 1;
    if cursor >= |input| { return output, cursor; }
    var pair := input[start] * 256 + input[cursor];
    cursor := cursor + 1;
    longer := CopyBack(output, pair % 0x4000 / 8, pair % 8 + 3);
  }

  /** Decode one token. */
  method Step(input: seq<int>, start: nat, output: seq<int>) returns (longer: seq<int>, cursor: nat)
    requires IsBytes(input) && start < |input| && IsBytes(output)
    ensures longer == Put(output, TokenAt(input, start)) && cursor == TokenEnd(input, start)
    ensures IsBytes(longer) && |longer| <= |output| + 5 * (cursor - start)
  {
    var b := input[start];
    cursor := start + 1;
    if b == 0 || 9 <= b <= 127 {
      longer := output + [b];
    } else if b <= 8 {
      var end := if cursor + b <= |input| then cursor + b else |input|;
      longer := output + input[cursor..end];
      cursor := end;
    } else if b <= 191 {
      longer, cursor := Reference(input, start, output);
    } else {
      longer := output + [32, b - 128];
    }
  }

  /** Decode a record: what it means, never more than five times its length. */
  method Decode(input: seq<int>) returns (output: seq<int>)
    requires IsBytes(input)
    ensures output == Meaning(input) && IsBytes(output) && |output| <= 5 * |input|
  {
    output := [];
    var cursor := 0;
    while cursor < |input|
      invariant 0 <= cursor <= |input| && IsBytes(output) && |output| <= 5 * cursor
      invariant Unpack(output, Tokens(input, cursor)) == Meaning(input)
      decreases |input| - cursor
    {
      UnpackStep(input, cursor, output);
      output, cursor := Step(input, cursor, output);
    }
  }
}
