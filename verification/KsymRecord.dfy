/**
  The token table and the record of one symbol: what gen_ksym writes for a name and what
  the reader makes of it (ksym/src/bin/gen_ksym.rs, ksym/src/lib.rs).
*/
module KsymRecord {
  import opened Bytes
  import opened Chars
  import opened KsymOrder

  const TOKEN_MARKER: byte := 0xFF
  const KSYM_NAME_LEN: nat := 4096
  const PREFIX_LEN: nat := 3
  const MAX_TOKEN: nat := 512
  /** The longest candidate length. */
  const MAX_TOKEN_LEN: nat := 2000

  const CANDIDATE_LENS: seq<nat> := [
    10, 24, 31, 40, 56, 60, 70, 80, 90, 100, 150, 200, 250, 300, 400, 500, 600, 700, 800, 900,
    1000, 1200, 1400, 1600, 1800, 2000]

  /** A name the format can carry. */
  predicate GoodName(name: Name) {
    1 <= |name| <= 4096 && IsAscii(name)
  }

  // ----- Tokens

  function Concat(parts: seq<seq<byte>>): seq<byte> {
    if parts == [] then [] else Concat(parts[..|parts| - 1]) + parts[|parts| - 1]
  }

  lemma ConcatSnoc(parts: seq<seq<byte>>, part: seq<byte>)
    ensures Concat(parts + [part]) == Concat(parts) + part
  {
    var all := parts + [part];
    assert all[..|all| - 1] == parts;
  }

  /** Part `i` lies in the concatenation where the parts before it end. */
  lemma {:induction false} ConcatPart(parts: seq<seq<byte>>, i: nat)
    requires i < |parts|
    ensures |Concat(parts[..i])| + |parts[i]| == |Concat(parts[..i + 1])| <= |Concat(parts)|
    ensures Concat(parts)[|Concat(parts[..i])|..|Concat(parts[..i])| + |parts[i]|] == parts[i]
  {
    var n := |parts| - 1;
    assert parts[..i + 1] == parts[..i] + [parts[i]];
    ConcatSnoc(parts[..i], parts[i]);
    if i < n {
      ConcatPart(parts[..n], i);
      assert parts[..n][..i] == parts[..i] && parts[..n][..i + 1] == parts[..i + 1];
    } else {
      assert parts[..n] == parts[..i];
    }
  }

  /** The tokens the selection loop leaves: distinct, ASCII, at most MAX_TOKEN of them. */
  predicate TokenList(tokens: seq<Name>) {
    && |tokens| <= MAX_TOKEN
    && (forall i, j | 0 <= i < j < |tokens| :: tokens[i] != tokens[j])
    && (forall i | 0 <= i < |tokens| :: IsAscii(tokens[i]) && |tokens[i]| <= MAX_TOKEN_LEN)
  }

  /** Some token starts with `c`. */
  predicate IsStart(c: Name, tokens: seq<Name>) {
    exists i :: 0 <= i < |tokens| && c <= tokens[i]
  }

  /** The tokens are candidates, and with room left every candidate is the beginning of one. */
  ghost predicate SelectedFrom(candidates: seq<Name>, tokens: seq<Name>) {
    && (forall t :: t in tokens ==> t in candidates)
    && (|tokens| < MAX_TOKEN ==> forall c :: c in candidates ==> IsStart(c, tokens))
  }

  /** A candidate is kept unless a token kept before starts with it. */
  method SelectTokens(candidates: seq<Name>) returns (tokens: seq<Name>)
    requires forall i | 0 <= i < |candidates| :: IsAscii(candidates[i]) && |candidates[i]| <= MAX_TOKEN_LEN
    ensures TokenList(tokens) && SelectedFrom(candidates, tokens)
    ensures |tokens| <= 512 && (|tokens| < 512 ==> forall c :: c in candidates ==> IsStart(c, tokens))
    ensures forall i, j | 0 <= i < j < |tokens| :: !(tokens[j] <= tokens[i])
  {
    hide TokenList, IsAscii;
    NoTokens();
    tokens := [];
    var n := 0;
    while n < |candidates|
      invariant 0 <= n <= |candidates| && TokenList(tokens) && |tokens| <= MAX_TOKEN
      invariant forall t :: t in tokens ==> t in candidates
      invariant forall i, j | 0 <= i < j < |tokens| :: !(tokens[j] <= tokens[i])
      invariant forall m | 0 <= m < n :: IsStart(candidates[m], tokens)
    {
      if |tokens| >= MAX_TOKEN {
        break;
      }
      var tok := candidates[n];
      var isPrefix := StartsOne(tok, tokens);
      if !isPrefix {
        ghost var before := tokens;
        KeepToken(before, tok);
        forall m | 0 <= m < n
          ensures IsStart(candidates[m], before + [tok])
        {
          StaysStart(candidates[m], before, tok);
        }
        tokens := tokens + [tok];
      }
      n := n + 1;
    }
  }

  lemma NoTokens()
    ensures TokenList([])
  {
  }

  method StartsOne(tok: Name, tokens: seq<Name>) returns (isPrefix: bool)
    ensures isPrefix <==> IsStart(tok, tokens)
  {
    isPrefix := false;
    var e := 0;
    while e < |tokens| && !isPrefix
      invariant 0 <= e <= |tokens|
      invariant isPrefix <==> exists i :: 0 <= i < e && tok <= tokens[i]
    {
      if tok <= tokens[e] {
        isPrefix := true;
      }
      e := e + 1;
    }
  }

  lemma KeepToken(tokens: seq<Name>, tok: Name)
    requires !IsStart(tok, tokens) && forall i, j | 0 <= i < j < |tokens| :: !(tokens[j] <= tokens[i])
    requires TokenList(tokens) && |tokens| < MAX_TOKEN && IsAscii(tok) && |tok| <= MAX_TOKEN_LEN
    ensures TokenList(tokens + [tok]) && IsStart(tok, tokens + [tok])
    ensures forall i, j | 0 <= i < j < |tokens + [tok]| :: !((tokens + [tok])[j] <= (tokens + [tok])[i])
  {
    hide IsAscii;
    assert (tokens + [tok])[|tokens|] == tok;
    forall i | 0 <= i < |tokens|
      ensures !(tok <= tokens[i]) && tokens[i] != tok
    {
      assert tokens[i] <= tokens[i];
    }
  }

  lemma StaysStart(c: Name, tokens: seq<Name>, tok: Name)
    requires IsStart(c, tokens)
    ensures IsStart(c, tokens + [tok])
  {
    var i :| 0 <= i < |tokens| && c <= tokens[i];
    assert (tokens + [tok])[i] == tokens[i];
  }

  /** The token map: a token's id is its place in the list. */
  predicate MapOf(tokens: seq<Name>, ids: map<Name, nat>) {
    && (forall i | 0 <= i < |tokens| :: tokens[i] in ids && ids[tokens[i]] == i)
    && (forall t | t in ids :: ids[t] < |tokens| && tokens[ids[t]] == t)
  }

  /** The start of each token in the concatenated table. */
  function TokenIndex(tokens: seq<Name>): (index: seq<nat>)
    ensures |index| == |tokens|
  {
    seq(|tokens|, i requires 0 <= i < |tokens| => |Concat(tokens[..i])|)
  }

  // ----- Writing a record

  /** The longest candidate length, among the first `k`, at which the name has a token. */
  function TokenLen(name: Name, ids: map<Name, nat>, k: nat): (l: nat)
    requires k <= |CANDIDATE_LENS|
    ensures l <= |name| && (l > 0 ==> name[..l] in ids && l >= CANDIDATE_LENS[0] && l in CANDIDATE_LENS)
  {
    if k == 0 then 0
    else if CANDIDATE_LENS[k - 1] <= |name| && name[..CANDIDATE_LENS[k - 1]] in ids then CANDIDATE_LENS[k - 1]
    else TokenLen(name, ids, k - 1)
  }

  /** The length of the token that stands for the name's beginning; 0 when there is none. */
  function TokenPrefix(name: Name, ids: map<Name, nat>): (l: nat)
    ensures l <= |name| && (l > 0 ==> name[..l] in ids && l >= 10 && l in CANDIDATE_LENS)
  {
    TokenLen(name, ids, |CANDIDATE_LENS|)
  }

  lemma {:induction false} LensGrow(i: nat, j: nat)
    requires i <= j < |CANDIDATE_LENS|
    ensures CANDIDATE_LENS[i] <= CANDIDATE_LENS[j]
    decreases j - i
  {
    if i < j {
      LensGrow(i, j - 1);
      NextLen(j - 1);
    }
  }

  lemma NextLen(i: nat)
    requires i + 1 < |CANDIDATE_LENS|
    ensures CANDIDATE_LENS[i] < CANDIDATE_LENS[i + 1]
  {
  }

  lemma {:induction false} LenIsLongest(name: Name, ids: map<Name, nat>, k: nat, j: nat)
    requires j < k <= |CANDIDATE_LENS| && CANDIDATE_LENS[j] <= |name| && name[..CANDIDATE_LENS[j]] in ids
    ensures CANDIDATE_LENS[j] <= TokenLen(name, ids, k)
  {
    LensGrow(j, k - 1);
    hide CANDIDATE_LENS;
    if j < k - 1 {
      LenIsLongest(name, ids, k - 1, j);
    }
  }

  /** The lengths at which a name can be cut. */
  predicate IsCandidateLength(l: nat) {
    l in {10, 24, 31, 40, 56, 60, 70, 80, 90, 100, 150, 200, 250, 300, 400, 500, 600, 700, 800, 900,
          1000, 1200, 1400, 1600, 1800, 2000}
  }

  /** The length used is none or a candidate length, and no longer candidate length has a token for the name. */
  lemma PrefixIsLongest(name: Name, ids: map<Name, nat>, l: nat)
    ensures TokenPrefix(name, ids) == 0 || IsCandidateLength(TokenPrefix(name, ids))
    ensures IsCandidateLength(l) && l <= |name| && name[..l] in ids ==> l <= TokenPrefix(name, ids)
  {
    hide TokenLen;
    if IsCandidateLength(l) && l <= |name| && name[..l] in ids {
      assert l in CANDIDATE_LENS;
      NoLonger(name, ids);
    }
  }

  lemma NoLonger(name: Name, ids: map<Name, nat>)
    ensures forall c | c in CANDIDATE_LENS && c <= |name| && name[..c] in ids :: c <= TokenPrefix(name, ids)
  {
    hide CANDIDATE_LENS;
    forall c | c in CANDIDATE_LENS && c <= |name| && name[..c] in ids
      ensures c <= TokenPrefix(name, ids)
    {
      var j :| 0 <= j < |CANDIDATE_LENS| && CANDIDATE_LENS[j] == c;
      LenIsLongest(name, ids, |CANDIDATE_LENS|, j);
    }
  }

  /** What follows the type and the length: a marked token id and the rest, or the raw name. */
  function Payload(name: Name, ids: map<Name, nat>): seq<byte> {
    var l := TokenPrefix(name, ids);
    if l == 0 then name else IdBytes(ids[name[..l]]) + name[l..]
  }

  function IdBytes(id: nat): (s: seq<byte>) {
    if id < 256 then [TOKEN_MARKER, id, TOKEN_MARKER]
    else [TOKEN_MARKER, id / 256 % 256, id % 256, TOKEN_MARKER]
  }

  function Record(s: Symbol, ids: map<Name, nat>): seq<byte> {
    [s.ty] + LeBytes(|Payload(s.name, ids)|, 2) + Payload(s.name, ids)
  }

  /**
    A record byte for byte: the type, the length of what follows, the low byte first, and the name
    or, where the name begins with a token, the token's id between two bytes 0xFF, in one byte or
    in two with the high one first, and the rest of the name.
  */
  lemma RecordBytesAre(s: Symbol, ids: map<Name, nat>)
    requires |s.name| <= 4096
    ensures var l := TokenPrefix(s.name, ids);
            var id := if l > 0 then ids[s.name[..l]] else 0;
            var payload := if l == 0 then s.name
                           else if id < 256 then [0xFF, id, 0xFF] + s.name[l..]
                           else [0xFF, id / 256 % 256, id % 256, 0xFF] + s.name[l..];
            Record(s, ids) == [s.ty, |payload| % 256, |payload| / 256] + payload
  {
    hide TokenPrefix, LeBytes, Word64, Word32;
    StoresWords(|Payload(s.name, ids)|);
    ShortPayload(s.name, ids);
  }

  /** A token replaces at least ten bytes by at most four. */
  lemma ShortPayload(name: Name, ids: map<Name, nat>)
    ensures |Payload(name, ids)| <= |name|
  {
    hide TokenPrefix, IdBytes;
    var l := TokenPrefix(name, ids);
    if l > 0 {
      IdLength(ids[name[..l]]);
    }
  }

  // ----- Reading a record

  function HiLo(lo: nat, hi: nat): nat {
    hi * 256 + lo
  }

  function ReadLenAndType(bytes: seq<byte>): (nat, byte) {
    if |bytes| < PREFIX_LEN then (0, 0x20) else (HiLo(bytes[1], bytes[2]), bytes[0])
  }

  /** The tokens the reader can slice out of its table without leaving it. */
  predicate GoodTable(table: seq<byte>, index: seq<nat>) {
    forall i | 0 <= i < |index| :: index[i] <= TokenEnd(table, index, i) <= |table|
  }

  function TokenEnd(table: seq<byte>, index: seq<nat>, id: nat): nat
    requires id < |index|
  {
    if id + 1 < |index| then index[id + 1] else |table|
  }

  function Min(a: nat, b: nat): nat {
    if a < b then a else b
  }

  /** The id of a marked token and the number of bytes it takes; None when it is not one. */
  function ParseId(bytes: seq<byte>): (Option<nat>, nat)
    requires bytes != []
  {
    if 2 < |bytes| && bytes[2] == TOKEN_MARKER then (Some(bytes[1]), 3)
    else if 3 < |bytes| && bytes[3] == TOKEN_MARKER then (Some(HiLo(bytes[2], bytes[1])), 4)
    else (None, 0)
  }

  /** The token of an id that the table has, cut at the size of the name buffer. */
  function TokenHead(table: seq<byte>, index: seq<nat>, id: Option<nat>): (r: seq<byte>)
    requires GoodTable(table, index)
    ensures |r| <= KSYM_NAME_LEN
  {
    var token :=
      if id.Some? && id.value < |index| then table[index[id.value]..TokenEnd(table, index, id.value)] else [];
    token[..Min(KSYM_NAME_LEN, |token|)]
  }

  /** The bytes the reader puts into its name buffer. */
  function ExpandBytes(table: seq<byte>, index: seq<nat>, bytes: seq<byte>): (r: seq<byte>)
    requires bytes != [] && GoodTable(table, index)
    ensures |r| <= KSYM_NAME_LEN
  {
    if bytes[0] == TOKEN_MARKER then
      var (id, used) := ParseId(bytes);
      var head := TokenHead(table, index, id);
      head + bytes[used..used + Min(KSYM_NAME_LEN - |head|, |bytes| - used)]
    else
      bytes[..Min(KSYM_NAME_LEN, |bytes|)]
  }

  /** from_utf8 or the empty string: besides ASCII these buffers hold only 0xFF, never UTF-8. */
  function AsText(s: seq<byte>): Name {
    if IsAscii(s) then s else []
  }

  function Expand(table: seq<byte>, index: seq<nat>, bytes: seq<byte>): Name
    requires bytes != [] && GoodTable(table, index)
  {
    AsText(ExpandBytes(table, index, bytes))
  }

  function FirstBytes(s: seq<byte>): seq<byte> {
    if |s| <= 4096 then s else s[..4096]
  }

  /** The bytes of a token, up to where the next one begins; none for an id that the table does not have. */
  function TokenBytes(table: seq<byte>, index: seq<nat>, id: nat): seq<byte>
    requires GoodTable(table, index)
  {
    if id + 1 < |index| then table[index[id]..index[id + 1]]
    else if id + 1 == |index| then table[index[id]..]
    else []
  }

  /**
    Behind 0xFF, an id of one byte, or of two with the high one first, ended by 0xFF, stands for its
    token; other bytes stand for themselves.
  */
  function Uncut(table: seq<byte>, index: seq<nat>, bytes: seq<byte>): seq<byte>
    requires bytes != [] && GoodTable(table, index)
  {
    if bytes[0] == 0xFF && |bytes| >= 3 && bytes[2] == 0xFF then TokenBytes(table, index, bytes[1]) + bytes[3..]
    else if bytes[0] == 0xFF && |bytes| >= 4 && bytes[3] == 0xFF then
      TokenBytes(table, index, 256 * (bytes[1] as nat) + bytes[2] as nat) + bytes[4..]
    else bytes
  }

  lemma CutIsRead(table: seq<byte>, index: seq<nat>, bytes: seq<byte>)
    requires bytes != [] && GoodTable(table, index)
    ensures ExpandBytes(table, index, bytes) == FirstBytes(Uncut(table, index, bytes))
  {
    hide TokenBytes, TokenHead, ExpandBytes, GoodTable, FirstBytes, ParseId, Uncut;
    var (id, used) := ParseId(bytes);
    UncutParts(table, index, bytes);
    if bytes[0] == 0xFF && id.Some? {
      MarkedIsRead(table, index, bytes, id.value, used);
    } else {
      PlainIsRead(table, index, bytes);
    }
  }

  lemma UncutParts(table: seq<byte>, index: seq<nat>, bytes: seq<byte>)
    requires bytes != [] && GoodTable(table, index)
    ensures var (id, used) := ParseId(bytes);
            if bytes[0] == 0xFF && id.Some? then
              used <= |bytes| && Uncut(table, index, bytes) == TokenBytes(table, index, id.value) + bytes[used..]
            else Uncut(table, index, bytes) == bytes
  {
    hide TokenBytes, GoodTable;
  }

  lemma MarkedIsRead(table: seq<byte>, index: seq<nat>, bytes: seq<byte>, id: nat, used: nat)
    requires bytes != [] && bytes[0] == 0xFF && GoodTable(table, index)
    requires ParseId(bytes) == (Some(id), used) && used <= |bytes|
    ensures ExpandBytes(table, index, bytes) == FirstBytes(TokenBytes(table, index, id) + bytes[used..])
  {
    hide TokenBytes, TokenHead, ExpandBytes, GoodTable, FirstBytes, ParseId;
    ExpandParts(table, index, bytes);
    TokenIsRead(table, index, id, bytes[used..]);
    var n := Min(4096 - |TokenHead(table, index, Some(id))|, |bytes| - used);
    TakeRest(bytes, used, n);
  }

  lemma PlainIsRead(table: seq<byte>, index: seq<nat>, bytes: seq<byte>)
    requires bytes != [] && GoodTable(table, index) && (bytes[0] != 0xFF || ParseId(bytes).0.None?)
    ensures ExpandBytes(table, index, bytes) == FirstBytes(bytes)
  {
    ExpandParts(table, index, bytes);
    hide TokenHead, ExpandBytes, GoodTable;
    HeadIsToken(table, index, None);
    TakeRest(bytes, 0, Min(4096, |bytes|));
  }

  lemma TokenIsRead(table: seq<byte>, index: seq<nat>, id: nat, rest: seq<byte>)
    requires GoodTable(table, index)
    ensures var head := TokenHead(table, index, Some(id));
            head + rest[..Min(4096 - |head|, |rest|)] == FirstBytes(TokenBytes(table, index, id) + rest)
  {
    hide TokenBytes, TokenHead, GoodTable;
    HeadIsToken(table, index, Some(id));
    CutTogether(TokenBytes(table, index, id), rest);
  }

  lemma TakeRest(bytes: seq<byte>, used: nat, n: nat)
    requires used + n <= |bytes|
    ensures bytes[used..used + n] == bytes[used..][..n] && [] + bytes[used..used + n] == bytes[used..used + n]
    ensures bytes[0..] == bytes && bytes[..|bytes|] == bytes
  {
  }

  /** What the reader makes of any bytes at all: 4096 are kept, and no text is made of what is not ASCII. */
  lemma ReaderExpands(table: seq<byte>, index: seq<nat>, bytes: seq<byte>)
    requires bytes != [] && GoodTable(table, index)
    ensures var s := FirstBytes(Uncut(table, index, bytes));
            Expand(table, index, bytes) == if forall i | 0 <= i < |s| :: s[i] < 0x80 then s else []
  {
    hide GoodTable, FirstBytes, Uncut, ExpandBytes;
    CutIsRead(table, index, bytes);
  }

  lemma HeadIsToken(table: seq<byte>, index: seq<nat>, id: Option<nat>)
    requires GoodTable(table, index)
    ensures TokenHead(table, index, id) == if id.None? then [] else FirstBytes(TokenBytes(table, index, id.value))
  {
    if id.Some? && id.value < |index| {
      assert index[id.value] <= TokenEnd(table, index, id.value) <= |table|;
    }
  }

  lemma CutTogether(a: seq<byte>, b: seq<byte>)
    ensures var n := Min(4096 - |FirstBytes(a)|, |b|); FirstBytes(a) + b[..n] == FirstBytes(a + b)
  {
  }

  /** expand_symbol as the code runs it, filling the caller's buffer. */
  method ExpandSymbol(table: seq<byte>, index: seq<nat>, bytes: seq<byte>, buf: array<byte>) returns (name: Name)
    requires bytes != [] && GoodTable(table, index) && buf.Length == KSYM_NAME_LEN
    modifies buf
    ensures name == Expand(table, index, bytes)
  {
    ExpandParts(table, index, bytes);
    hide ParseId, AsText, GoodTable, TokenHead, ExpandBytes, Min;
    var i, offset: nat := 0, 0;
    if bytes[0] == TOKEN_MARKER {
      var (tokenId, used) := ParseId(bytes);
      i := used;
      offset := CopyToken(table, index, tokenId, buf);
      offset := CopyRest(bytes, i, buf, offset);
      assert buf[..offset] == ExpandBytes(table, index, bytes);
    } else {
      offset := CopyRest(bytes, i, buf, offset);
      assert bytes[0..offset] == bytes[..offset];
      assert buf[..offset] == ExpandBytes(table, index, bytes);
    }
    name := AsText(buf[..offset]);
  }

  lemma ExpandParts(table: seq<byte>, index: seq<nat>, bytes: seq<byte>)
    requires bytes != [] && GoodTable(table, index)
    ensures bytes[0] == TOKEN_MARKER ==>
              var (id, used) := ParseId(bytes);
              var head := TokenHead(table, index, id);
              var n := Min(KSYM_NAME_LEN - |head|, |bytes| - used);
              used + n <= |bytes| && ExpandBytes(table, index, bytes) == head + bytes[used..used + n]
    ensures bytes[0] != TOKEN_MARKER ==>
              ExpandBytes(table, index, bytes) == bytes[..Min(KSYM_NAME_LEN, |bytes|)]
  {
    hide TokenHead, GoodTable;
  }

  method CopyToken(table: seq<byte>, index: seq<nat>, id: Option<nat>, buf: array<byte>) returns (n: nat)
    requires GoodTable(table, index) && buf.Length == KSYM_NAME_LEN
    modifies buf
    ensures n <= KSYM_NAME_LEN && buf[..n] == TokenHead(table, index, id)
  {
    n := 0;
    if id.Some? && id.value < |index| {
      var token := table[index[id.value]..TokenEnd(table, index, id.value)];
      n := Min(KSYM_NAME_LEN, |token|);
      CopyIn(buf, 0, token[..n]);
      assert buf[..n] == token[..n];
    }
  }

  /** Appends the bytes from `i` on, as many as the buffer takes. */
  method CopyRest(bytes: seq<byte>, i: nat, buf: array<byte>, offset: nat) returns (end: nat)
    requires i <= |bytes| && offset <= KSYM_NAME_LEN == buf.Length
    modifies buf
    ensures var n := Min(KSYM_NAME_LEN - offset, |bytes| - i);
            end == offset + n <= KSYM_NAME_LEN && i + n <= |bytes| && buf[..end] == old(buf[..offset]) + bytes[i..i + n]
  {
    var n := Min(KSYM_NAME_LEN - offset, |bytes| - i);
    CopyIn(buf, offset, bytes[i..i + n]);
    end := offset + n;
  }

  method CopyIn(buf: array<byte>, offset: nat, data: seq<byte>)
    requires offset + |data| <= buf.Length
    modifies buf
    ensures buf[..offset + |data|] == old(buf[..offset]) + data
  {
    forall i | 0 <= i < |data| {
      buf[offset + i] := data[i];
    }
  }

  // ----- Round trips

  /** The table built from the token list gives every token back by its id. */
  lemma TableGivesToken(tokens: seq<Name>, id: nat)
    requires id < |tokens|
    ensures var table, index := Concat(tokens), TokenIndex(tokens);
            && index[id] <= TokenEnd(table, index, id) <= |table|
            && table[index[id]..TokenEnd(table, index, id)] == tokens[id]
  {
    ConcatPart(tokens, id);
    if id + 1 == |tokens| {
      assert tokens[..id + 1] == tokens;
    }
  }

  lemma TableIsGood(tokens: seq<Name>)
    ensures GoodTable(Concat(tokens), TokenIndex(tokens))
  {
    var table, index := Concat(tokens), TokenIndex(tokens);
    forall i | 0 <= i < |index|
      ensures index[i] <= TokenEnd(table, index, i) <= |table|
    {
      TableGivesToken(tokens, i);
    }
  }

  /** The id bytes are read back as that id exactly for ids 0 to 510. */
  lemma IdRoundTrip(id: nat, rest: seq<byte>)
    requires id < MAX_TOKEN
    ensures ParseId(IdBytes(id) + rest) == (Some(id), |IdBytes(id)|) <==> id != 511
    ensures id == 511 ==> ParseId(IdBytes(id) + rest) == (Some(1), 3)
  {
    var b := IdBytes(id) + rest;
    if id < 256 {
      assert b[1] == id && b[2] == TOKEN_MARKER;
    } else {
      assert id / 256 == 1 && b[1] == 1 && b[2] == id % 256 && b[3] == TOKEN_MARKER;
    }
  }

  /** The token id a name is written with, if any. */
  function UsedId(name: Name, ids: map<Name, nat>): Option<nat> {
    var l := TokenPrefix(name, ids);
    if l == 0 then None else Some(ids[name[..l]])
  }

  /**
    The reader recovers a name from its payload exactly when the name was not written with
    token id 511, the last of MAX_TOKEN; then it finds no text.
  */
  lemma PayloadRoundTrip(name: Name, tokens: seq<Name>, ids: map<Name, nat>)
    requires GoodName(name) && TokenList(tokens) && MapOf(tokens, ids)
    ensures 1 <= |Payload(name, ids)| <= KSYM_NAME_LEN
    ensures GoodTable(Concat(tokens), TokenIndex(tokens))
    ensures Expand(Concat(tokens), TokenIndex(tokens), Payload(name, ids))
         == if UsedId(name, ids) == Some(511) then [] else name
  {
    hide Expand, TokenPrefix, Concat, TokenIndex, IdBytes;
    TableIsGood(tokens);
    var table, index := Concat(tokens), TokenIndex(tokens);
    var l := TokenPrefix(name, ids);
    IdLength(if l == 0 then 0 else ids[name[..l]]);
    if l == 0 {
      RawRoundTrip(name, table, index);
    } else {
      var id := ids[name[..l]];
      if id != 511 {
        TableGivesToken(tokens, id);
        TokenRoundTrip(name[..l], name[l..], id, table, index);
        assert name[..l] + name[l..] == name;
      } else {
        TableGivesToken(tokens, 1);
        LastTokenIsLost(tokens[1], name[l..], table, index);
      }
    }
  }

  lemma IdLength(id: nat)
    ensures |IdBytes(id)| == if id < 256 then 3 else 4
  {
  }

  lemma RawRoundTrip(name: Name, table: seq<byte>, index: seq<nat>)
    requires GoodName(name) && GoodTable(table, index)
    ensures Expand(table, index, name) == name
  {
    assert name[..|name|] == name;
  }

  lemma TokenRoundTrip(token: Name, rest: Name, id: nat, table: seq<byte>, index: seq<nat>)
    requires GoodTable(table, index) && id < |index| && id < 511
    requires table[index[id]..TokenEnd(table, index, id)] == token
    requires IsAscii(token) && IsAscii(rest) && |token| + |rest| <= KSYM_NAME_LEN
    ensures Expand(table, index, IdBytes(id) + rest) == token + rest
  {
    var bytes := IdBytes(id) + rest;
    IdRoundTrip(id, rest);
    var n := |IdBytes(id)|;
    hide IdBytes, ParseId, GoodTable;
    assert token[..|token|] == token;
    assert TokenHead(table, index, Some(id)) == token;
    hide TokenHead;
    assert bytes[n..n + |rest|] == rest;
    assert bytes[0] == TOKEN_MARKER by {
      IdStarts(id);
    }
    assert ExpandBytes(table, index, bytes) == token + rest;
  }

  lemma IdStarts(id: nat)
    ensures IdBytes(id) != [] && IdBytes(id)[0] == TOKEN_MARKER
  {
  }

  /** A record written with id 511 is read with id 1 and a stray marker, which is no text. */
  lemma LastTokenIsLost(token: Name, rest: Name, table: seq<byte>, index: seq<nat>)
    requires GoodTable(table, index) && |index| > 1 && |token| < KSYM_NAME_LEN
    requires table[index[1]..TokenEnd(table, index, 1)] == token
    ensures Expand(table, index, IdBytes(511) + rest) == []
  {
    var bytes := IdBytes(511) + rest;
    IdRoundTrip(511, rest);
    var r := ExpandBytes(table, index, bytes);
    assert bytes[3] == TOKEN_MARKER;
    assert r[|token|] == TOKEN_MARKER;
  }
}
