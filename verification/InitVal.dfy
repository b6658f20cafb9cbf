/** The initial-value parameters of an LRAM block (initval_parameters of soc/hps_lattice_nx.py, 32 bits wide):
    128 strings of hexadecimal digits, each holding 128 words. */
module InitVal {
  import opened Words

  const CHUNK: nat := 128
  const PARAMETERS: nat := 128

  type HexDigit = d: int | 0 <= d < 16

  function Digit(d: HexDigit): char {
    "0123456789ABCDEF"[d]
  }

  function DigitValue(c: char): int {
    if '0' <= c <= '9' then c as int - '0' as int else c as int - 'A' as int + 10
  }

  /** The low n hexadecimal digits of v, the highest first. */
  function Hex(v: nat, n: nat): (text: string)
    ensures |text| == n
  {
    if n == 0 then "" else Hex(v / 16, n - 1) + [Digit(v % 16)]
  }

  function ParseHex(text: string): int {
    if text == "" then 0 else 16 * ParseHex(text[..|text| - 1]) + DigitValue(text[|text| - 1])
  }

  function Power16(n: nat): nat {
    if n == 0 then 1 else 16 * Power16(n - 1)
  }

  lemma {:induction false} ParseOfHex(v: nat, n: nat)
    requires v < Power16(n)
    ensures ParseHex(Hex(v, n)) == v
  {
    if n > 0 {
      ParseOfHex(v / 16, n - 1);
      assert Hex(v, n)[..n - 1] == Hex(v / 16, n - 1);
      DigitRoundTrip(v % 16);
    }
  }

  lemma DigitRoundTrip(d: HexDigit)
    ensures DigitValue(Digit(d)) == d
  {
  }

  /** Eight bits of padding and 32 bits of data, in ten digits. */
  function Group(w: uint32): (text: string)
    ensures |text| == 10
  {
    "00" + Hex(w, 8)
  }

  /** The groups of a chunk of words, the last word first. */
  function ChunkText(words: seq<uint32>): (text: string)
    ensures |text| == 10 * |words|
  {
    if words == [] then "" else ChunkText(words[1..]) + Group(words[0])
  }

  datatype Parameter = Parameter(name: string, value: string)

  function ParameterOf(contents: seq<uint32>, i: nat): (p: Parameter)
    requires |contents| == PARAMETERS * CHUNK && i < PARAMETERS
    ensures |p.value| == 2 + 10 * CHUNK
  {
    Parameter("INITVAL_" + Hex(i, 2), "0x" + ChunkText(contents[CHUNK * i..CHUNK * i + CHUNK]))
  }

  /** The parameter list for 16,384 words: every string has 1280 digits after its prefix. */
  ghost predicate IsOutput(contents: seq<uint32>, parameters: seq<Parameter>) {
    && |contents| == PARAMETERS * CHUNK && |parameters| == PARAMETERS
    && forall i :: 0 <= i < PARAMETERS ==>
         |parameters[i].value| == 2 + 10 * CHUNK && parameters[i] == ParameterOf(contents, i)
  }

  method InitvalParameters(contents: seq<uint32>) returns (parameters: seq<Parameter>)
    requires |contents| == PARAMETERS * CHUNK
    ensures IsOutput(contents, parameters)
  {
    hide ParameterOf, ChunkText;
    parameters := [];
    for i := 0 to PARAMETERS
      invariant |parameters| == i
      invariant forall j :: 0 <= j < i ==> parameters[j] == ParameterOf(contents, j)
    {
      var value := ParameterValue(contents, i);
      ParameterIs(contents, i);
      parameters := parameters + [Parameter("INITVAL_" + Hex(i, 2), value)];
    }
  }

  lemma ParameterIs(contents: seq<uint32>, i: nat)
    requires |contents| == PARAMETERS * CHUNK && i < PARAMETERS
    ensures ParameterOf(contents, i)
         == Parameter("INITVAL_" + Hex(i, 2), "0x" + ChunkText(contents[CHUNK * i..CHUNK * i + CHUNK]))
  {
  }

  /** The words of one chunk, from the last to the first. */
  method ParameterValue(contents: seq<uint32>, i: nat) returns (value: string)
    requires |contents| == PARAMETERS * CHUNK && i < PARAMETERS
    ensures value == "0x" + ChunkText(contents[CHUNK * i..CHUNK * i + CHUNK])
  {
    hide Group;
    var offset := CHUNK * i;
    ghost var chunk := contents[offset..offset + CHUNK];
    var text, j := "", CHUNK;
    while j > 0
      invariant 0 <= j <= CHUNK && text == ChunkText(chunk[j..])
    {
      j := j - 1;
      text := text + Group(contents[offset + j]);
      assert chunk[j..][1..] == chunk[j + 1..];
    }
    assert chunk[0..] == chunk;
    value := "0x" + text;
  }

  // ---------- reading the strings back ----------

  /** The n words of a chunk: every ten digits, from the right, drop the padding. */
  function ParseChunk(text: string, n: nat): (words: seq<int>)
    requires |text| == 10 * n
    ensures |words| == n
  {
    if n == 0 then []
    else [ParseHex(text[|text| - 8..])] + ParseChunk(text[..|text| - 10], n - 1)
  }

  lemma {:induction false} ParseOfChunk(words: seq<uint32>)
    ensures ParseChunk(ChunkText(words), |words|) == words
  {
    if words != [] {
      ParseOfChunk(words[1..]);
      var text := ChunkText(words);
      assert text[..|text| - 10] == ChunkText(words[1..]);
      assert text[|text| - 8..] == Hex(words[0], 8);
      assert Power16(4) == 0x1_0000;
      assert Power16(8) == 0x1_0000_0000;
      ParseOfHex(words[0], 8);
    }
  }

  /** The first n parameters, read back and joined. */
  function ParseAll(parameters: seq<Parameter>, n: nat): seq<int>
    requires n <= |parameters| && forall i :: 0 <= i < n ==> |parameters[i].value| == 2 + 10 * CHUNK
  {
    if n == 0 then [] else ParseAll(parameters, n - 1) + ParseChunk(parameters[n - 1].value[2..], CHUNK)
  }

  lemma {:induction false} ParseOfParameters(contents: seq<uint32>, parameters: seq<Parameter>, n: nat)
    requires IsOutput(contents, parameters) && n <= PARAMETERS
    ensures ParseAll(parameters, n) == contents[..CHUNK * n]
  {
    hide ChunkText, ParseChunk, Hex;
    if n > 0 {
      ParseOfParameters(contents, parameters, n - 1);
      var chunk := contents[CHUNK * (n - 1)..CHUNK * (n - 1) + CHUNK];
      assert parameters[n - 1] == ParameterOf(contents, n - 1);
      assert parameters[n - 1].value[2..] == ChunkText(chunk);
      ParseOfChunk(chunk);
      assert contents[..CHUNK * n] == contents[..CHUNK * (n - 1)] + chunk;
    }
  }

  /** The parameters carry all 16,384 words, in order, in strings of 1280 digits, under 128 different names. */
  lemma ContentsRoundTrip(contents: seq<uint32>, parameters: seq<Parameter>)
    requires IsOutput(contents, parameters)
    ensures forall i :: 0 <= i < PARAMETERS ==> |parameters[i].value| == 2 + 1280
    ensures ParseAll(parameters, PARAMETERS) == contents
    ensures forall i, j :: 0 <= i < j < PARAMETERS ==> parameters[i].name != parameters[j].name
  {
    ParseOfParameters(contents, parameters, PARAMETERS);
    assert contents[..CHUNK * PARAMETERS] == contents;
    forall i, j | 0 <= i < j < PARAMETERS ensures parameters[i].name != parameters[j].name {
      assert Power16(2) == 256;
      ParseOfHex(i, 2);
      ParseOfHex(j, 2);
      assert parameters[i].name[8..] == Hex(i, 2) && parameters[j].name[8..] == Hex(j, 2);
    }
  }
}
