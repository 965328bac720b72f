/**
 * The decision logic of the command-line client (src/sync-client/bin/main.rs):
 * log verbosity, the `local:remote` mapping list, the request protocol and the
 * check that a local file is there before it is uploaded.
 */
module Client {
  import opened Wrappers
  import opened Strings
  import opened FileSystem

  newtype u8 = x: int | 0 <= x < 256

  // ---------------------------------------------------------------------------
  // Log level
  // ---------------------------------------------------------------------------

  datatype LevelFilter = Info | Debug | Trace

  /** How much a level lets through: each level shows everything the one before shows. */
  function Rank(level: LevelFilter): nat {
    match level
    case Info => 0
    case Debug => 1
    case Trace => 2
  }

  /** `Global::log_filter_level`: the number of `-v` flags chooses the level. */
  function LogFilterLevel(verbose: u8): (level: LevelFilter)
    ensures level == Info <==> verbose == 0
    ensures level == Debug <==> verbose == 1
    ensures level == Trace <==> verbose >= 2
  {
    match verbose
    case 0 => Info
    case 1 => Debug
    case _ => Trace
  }

  /** More `-v` flags never show less. */
  lemma LogFilterLevelMonotone(a: u8, b: u8)
    requires a <= b
    ensures Rank(LogFilterLevel(a)) <= Rank(LogFilterLevel(b))
  {
  }

  // ---------------------------------------------------------------------------
  // File mappings
  // ---------------------------------------------------------------------------

  /** The panic of `kv_list[1]` on a chunk that has no `:`. */
  const IndexOutOfBounds := "index out of bounds: the len is 1 but the index is 1"

  /** A chunk splits into at least two pieces exactly when it holds the separator. */
  lemma {:induction false} SplitInTwo(s: string, c: char)
    ensures |Split(s, c)| >= 2 <==> c in s
  {
    var i := IndexOf(s, c);
    if i >= 0 {
      assert s[i] == c;
    } else {
      assert Split(s, c) == [s];
    }
  }

  /** The local side of a `local:remote` chunk: the text before its first `:`. */
  function Local(chunk: string): string {
    Split(chunk, ':')[0]
  }

  /** The remote side of a chunk: the text between its first and second `:`. */
  function Remote(chunk: string): string
    requires ':' in chunk
  {
    SplitInTwo(chunk, ':');
    Split(chunk, ':')[1]
  }

  /** The `for_each` over the chunks, inserting each pair into `m`. */
  function InsertAll(m: map<string, string>, chunks: seq<string>): Outcome<map<string, string>>
    decreases |chunks|
  {
    if chunks == [] then Returned(m)
    else
      var kv := Split(chunks[0], ':');
      if |kv| < 2 then Panicked(IndexOutOfBounds)
      else InsertAll(m[kv[0] := kv[1]], chunks[1..])
  }

  /** What `parse_file_mappings` returns: it never returns `Err`, but it can panic. */
  function ParseFileMappingsSpec(mappings: string): Outcome<Result<map<string, string>>> {
    var r := InsertAll(map[], Split(mappings, ','));
    if r.Panicked? then Panicked(r.message) else Returned(Ok(r.value))
  }

  /** `parse_file_mappings`: split on `,`, split each chunk on `:`, insert its first two pieces. */
  method ParseFileMappings(mappings: string) returns (r: Outcome<Result<map<string, string>>>)
    ensures r == ParseFileMappingsSpec(mappings)
  {
    var chunks := Split(mappings, ',');
    var m: map<string, string> := map[];
    var i := 0;
    while i < |chunks|
      invariant 0 <= i <= |chunks|
      invariant InsertAll(map[], chunks) == InsertAll(m, chunks[i..])
    {
      InsertAllStep(m, chunks, i);
      var kvList := Split(chunks[i], ':');
      if |kvList| < 2 {
        return Panicked(IndexOutOfBounds);
      }
      m := m[kvList[0] := kvList[1]];
      i := i + 1;
    }
    assert chunks[i..] == [];
    r := Returned(Ok(m));
  }

  /** One step of the insertions, from the chunk at `i`. */
  lemma InsertAllStep(m: map<string, string>, chunks: seq<string>, i: nat)
    requires i < |chunks|
    ensures var kv := Split(chunks[i], ':');
            InsertAll(m, chunks[i..]) ==
              if |kv| < 2 then Panicked(IndexOutOfBounds) else InsertAll(m[kv[0] := kv[1]], chunks[i + 1..])
  {
    assert chunks[i..][0] == chunks[i];
    assert chunks[i..][1..] == chunks[i + 1..];
  }

  /** The insertions panic exactly when some chunk has no `:`; what is in `m` plays no part. */
  lemma {:induction false} InsertAllPanics(m: map<string, string>, chunks: seq<string>)
    ensures InsertAll(m, chunks).Panicked? <==> exists k :: 0 <= k < |chunks| && ':' !in chunks[k]
    decreases |chunks|
  {
    if chunks != [] {
      SplitInTwo(chunks[0], ':');
      var kv := Split(chunks[0], ':');
      if |kv| >= 2 {
        InsertAllPanics(m[kv[0] := kv[1]], chunks[1..]);
        if exists k :: 0 <= k < |chunks| && ':' !in chunks[k] {
          var k :| 0 <= k < |chunks| && ':' !in chunks[k];
          assert chunks[1..][k - 1] == chunks[k];
        }
        if exists k :: 0 <= k < |chunks| - 1 && ':' !in chunks[1..][k] {
          var k :| 0 <= k < |chunks| - 1 && ':' !in chunks[1..][k];
          assert chunks[k + 1] == chunks[1..][k];
        }
      }
    }
  }

  /** A key no chunk names keeps whatever `m` had for it. */
  lemma {:induction false} InsertAllKeepsOthers(m: map<string, string>, chunks: seq<string>, key: string)
    requires InsertAll(m, chunks).Returned?
    requires forall j :: 0 <= j < |chunks| ==> Local(chunks[j]) != key
    ensures key in InsertAll(m, chunks).value <==> key in m
    ensures key in m ==> InsertAll(m, chunks).value[key] == m[key]
    decreases |chunks|
  {
    if chunks != [] {
      var kv := Split(chunks[0], ':');
      assert Local(chunks[0]) != key;
      forall j | 0 <= j < |chunks| - 1 ensures Local(chunks[1..][j]) != key {
        assert chunks[1..][j] == chunks[j + 1];
      }
      InsertAllKeepsOthers(m[kv[0] := kv[1]], chunks[1..], key);
    }
  }

  /** The value for a key comes from the last chunk that names it. */
  lemma {:induction false} InsertAllLastWins(m: map<string, string>, chunks: seq<string>, j: nat)
    requires InsertAll(m, chunks).Returned?
    requires j < |chunks|
    requires forall j' :: j < j' < |chunks| ==> Local(chunks[j']) != Local(chunks[j])
    ensures ':' in chunks[j]
    ensures Local(chunks[j]) in InsertAll(m, chunks).value
    ensures InsertAll(m, chunks).value[Local(chunks[j])] == Remote(chunks[j])
    decreases |chunks|
  {
    InsertAllPanics(m, chunks);
    var kv := Split(chunks[0], ':');
    SplitInTwo(chunks[0], ':');
    var m' := m[kv[0] := kv[1]];
    if j == 0 {
      forall i | 0 <= i < |chunks| - 1 ensures Local(chunks[1..][i]) != Local(chunks[0]) {
        assert chunks[1..][i] == chunks[i + 1];
      }
      InsertAllKeepsOthers(m', chunks[1..], Local(chunks[0]));
    } else {
      assert chunks[1..][j - 1] == chunks[j];
      forall i | j - 1 < i < |chunks| - 1 ensures Local(chunks[1..][i]) != Local(chunks[1..][j - 1]) {
        assert chunks[1..][i] == chunks[i + 1];
      }
      InsertAllLastWins(m', chunks[1..], j - 1);
    }
  }

  /** The keys of the result are the local sides of the chunks and nothing else. */
  lemma {:induction false} InsertAllKeys(m: map<string, string>, chunks: seq<string>, key: string)
    requires InsertAll(m, chunks).Returned?
    ensures key in InsertAll(m, chunks).value <==>
              key in m || exists j :: 0 <= j < |chunks| && Local(chunks[j]) == key
    decreases |chunks|
  {
    if chunks != [] {
      var kv := Split(chunks[0], ':');
      InsertAllKeys(m[kv[0] := kv[1]], chunks[1..], key);
      if exists j :: 0 <= j < |chunks| - 1 && Local(chunks[1..][j]) == key {
        var j :| 0 <= j < |chunks| - 1 && Local(chunks[1..][j]) == key;
        assert chunks[1..][j] == chunks[j + 1];
      }
      if exists j :: 0 <= j < |chunks| && Local(chunks[j]) == key {
        var j :| 0 <= j < |chunks| && Local(chunks[j]) == key;
        if j > 0 { assert chunks[1..][j - 1] == chunks[j]; }
      }
    }
  }

  /** The parse is the insertions over the `,`-separated chunks. */
  lemma ParseIsInsertAll(mappings: string)
    ensures var r := InsertAll(map[], Split(mappings, ','));
            ParseFileMappingsSpec(mappings) == if r.Panicked? then Panicked(r.message) else Returned(Ok(r.value))
  {
  }

  /** `parse_file_mappings` panics exactly when one of the `,`-separated chunks has no `:`. */
  lemma ParseFileMappingsPanics(mappings: string)
    ensures var chunks := Split(mappings, ',');
            ParseFileMappingsSpec(mappings).Panicked? <==> exists k :: 0 <= k < |chunks| && ':' !in chunks[k]
  {
    ParseIsInsertAll(mappings);
    InsertAllPanics(map[], Split(mappings, ','));
  }

  /** When it returns, its keys are exactly the local sides of the chunks. */
  lemma ParseFileMappingsKeys(mappings: string, key: string)
    requires ParseFileMappingsSpec(mappings).Returned?
    ensures var chunks := Split(mappings, ',');
            key in ParseFileMappingsSpec(mappings).value.value <==>
              exists j :: 0 <= j < |chunks| && Local(chunks[j]) == key
  {
    ParseIsInsertAll(mappings);
    InsertAllKeys(map[], Split(mappings, ','), key);
  }

  /** When it returns, each local side maps to the remote side of the last chunk naming it. */
  lemma ParseFileMappingsLastWins(mappings: string, j: nat)
    requires ParseFileMappingsSpec(mappings).Returned?
    requires j < |Split(mappings, ',')|
    requires var chunks := Split(mappings, ',');
             forall j' :: j < j' < |chunks| ==> Local(chunks[j']) != Local(chunks[j])
    ensures var chunks := Split(mappings, ',');
            && ':' in chunks[j]
            && Local(chunks[j]) in ParseFileMappingsSpec(mappings).value.value
            && ParseFileMappingsSpec(mappings).value.value[Local(chunks[j])] == Remote(chunks[j])
  {
    ParseIsInsertAll(mappings);
    InsertAllLastWins(map[], Split(mappings, ','), j);
  }

  /** Text with neither of the two separators in it. */
  predicate Bare(s: string) {
    ',' !in s && ':' !in s
  }

  /** `local:remote`, split on `:`. */
  lemma SplitChunk(l: string, r: string)
    requires Bare(l) && Bare(r)
    ensures Split(l + ":" + r, ':') == [l, r]
    ensures Bare(l + ":" + r) == false && ',' !in l + ":" + r
  {
    assert l + ":" + r == l + [':'] + r;
    SplitPair(l, ':', r);
  }

  /** Inserting two well-formed chunks. */
  lemma InsertTwo(m: map<string, string>, c1: string, c2: string, l1: string, r1: string, l2: string, r2: string)
    requires Split(c1, ':') == [l1, r1] && Split(c2, ':') == [l2, r2]
    ensures InsertAll(m, [c1, c2]) == Returned(m[l1 := r1][l2 := r2])
  {
    assert [c1, c2][1..] == [c2];
    assert [c2][1..] == [];
    assert InsertAll(m, [c1, c2]) == InsertAll(m[l1 := r1], [c2]);
    assert InsertAll(m[l1 := r1], [c2]) == InsertAll(m[l1 := r1][l2 := r2], []);
  }

  /** Two `local:remote` chunks joined by `,` split back into the two chunks. */
  lemma SplitTwoChunks(l1: string, r1: string, l2: string, r2: string)
    requires Bare(l1) && Bare(r1) && Bare(l2) && Bare(r2)
    ensures Split(l1 + ":" + r1 + "," + l2 + ":" + r2, ',') == [l1 + ":" + r1, l2 + ":" + r2]
  {
    var c1, c2 := l1 + ":" + r1, l2 + ":" + r2;
    assert ',' !in c1 && ',' !in c2;
    assert l1 + ":" + r1 + "," + l2 + ":" + r2 == c1 + [','] + c2;
    SplitPair(c1, ',', c2);
  }

  /** Two chunks give two pairs, inserted in order. */
  lemma ParseTwoPairs(l1: string, r1: string, l2: string, r2: string)
    requires Bare(l1) && Bare(r1) && Bare(l2) && Bare(r2)
    ensures ParseFileMappingsSpec(l1 + ":" + r1 + "," + l2 + ":" + r2) == Returned(Ok(map[l1 := r1][l2 := r2]))
  {
    ParseIsInsertAll(l1 + ":" + r1 + "," + l2 + ":" + r2);
    SplitTwoChunks(l1, r1, l2, r2);
    SplitChunk(l1, r1);
    SplitChunk(l2, r2);
    InsertTwo(map[], l1 + ":" + r1, l2 + ":" + r2, l1, r1, l2, r2);
  }

  /** A repeated local side keeps the later remote side. */
  lemma ParseLaterWins(l: string, r1: string, r2: string)
    requires Bare(l) && Bare(r1) && Bare(r2)
    ensures ParseFileMappingsSpec(l + ":" + r1 + "," + l + ":" + r2) == Returned(Ok(map[l := r2]))
  {
    ParseTwoPairs(l, r1, l, r2);
    assert map[l := r1][l := r2] == map[l := r2];
  }

  /** Pieces after the second `:` of a chunk are dropped. */
  lemma ParseDropsThirdPiece(l: string, r: string, x: string)
    requires Bare(l) && Bare(r) && ',' !in x
    ensures ParseFileMappingsSpec(l + ":" + r + ":" + x) == Returned(Ok(map[l := r]))
  {
    ParseIsInsertAll(l + ":" + r + ":" + x);
    var s := l + ":" + r + ":" + x;
    assert ',' !in s;
    SplitNone(s, ',');
    assert s == l + [':'] + (r + ":" + x);
    SplitFirst(l, ':', r + ":" + x);
    assert r + ":" + x == r + [':'] + x;
    SplitFirst(r, ':', x);
    assert [s][1..] == [];
  }

  /** The empty list, and a list with a chunk lacking `:`, panic. */
  lemma ParsePanicsWithoutColon(l: string, r: string, x: string)
    requires Bare(l) && Bare(r) && Bare(x)
    ensures ParseFileMappingsSpec("") == Panicked(IndexOutOfBounds)
    ensures ParseFileMappingsSpec(l + ":" + r + "," + x) == Panicked(IndexOutOfBounds)
  {
    ParseIsInsertAll("");
    ParseIsInsertAll(l + ":" + r + "," + x);
    SplitNone("", ',');
    SplitNone("", ':');
    var c := l + ":" + r;
    SplitChunk(l, r);
    assert c + "," + x == c + [','] + x;
    SplitPair(c, ',', x);
    SplitNone(x, ':');
    assert [c, x][1..] == [x];
  }


  // ---------------------------------------------------------------------------
  // Protocol and configuration
  // ---------------------------------------------------------------------------

  datatype ReqProtocol = Http(text: string) | Https(text: string)

  /** `ReqProtocol::data`. */
  function Data(protocol: ReqProtocol): string {
    match protocol
    case Http(d) => d
    case Https(d) => d
  }

  const Unreachable := "internal error: entered unreachable code"

  /**
   * `ReqProtocol::new`: lower-case the name; "http" and "https" are the only names
   * it accepts, anything else reaches `unreachable!()`.
   */
  function NewReqProtocol(protocol: string): (r: Outcome<ReqProtocol>)
    ensures r.Returned? <==> AsciiLower(protocol) in {"http", "https"}
    ensures r.Returned? ==> Data(r.value) == AsciiLower(protocol)
    ensures r.Returned? ==> (r.value.Https? <==> Data(r.value) == "https")
  {
    var lower := AsciiLower(protocol);
    if lower == "http" then Returned(Http(lower))
    else if lower == "https" then Returned(Https(lower))
    else Panicked(Unreachable)
  }

  lemma AsciiLowerKeepsLower(s: string)
    requires forall i :: 0 <= i < |s| ==> !('A' <= s[i] <= 'Z')
    ensures AsciiLower(s) == s
  {
  }

  /** Upper or lower case in, lower case out. */
  lemma NewReqProtocolExamples()
    ensures NewReqProtocol("http") == Returned(Http("http"))
    ensures NewReqProtocol("HTTP") == Returned(Http("http"))
    ensures NewReqProtocol("HTTPS") == Returned(Https("https"))
    ensures NewReqProtocol("ftp").Panicked?
  {
    AsciiLowerKeepsLower("http");
    AsciiLowerKeepsLower("ftp");
    assert AsciiLower("HTTP") == "http";
    assert AsciiLower("HTTPS") == "https";
  }

  datatype Config = Config(addr: string, headerHost: Option<string>, protocol: ReqProtocol)

  /** `Config::new`: https exactly when insecure TLS is enabled, http otherwise; it never panics. */
  function NewConfig(addr: string, host: Option<string>, enableInsecureSsl: bool): (cfg: Config)
    ensures cfg.addr == addr && cfg.headerHost == host
    ensures cfg.protocol.Https? <==> enableInsecureSsl
    ensures Data(cfg.protocol) == if enableInsecureSsl then "https" else "http"
  {
    var name := if enableInsecureSsl then "https" else "http";
    AsciiLowerKeepsLower(name);
    Config(addr, host, NewReqProtocol(name).value)
  }

  // ---------------------------------------------------------------------------
  // Local file check
  // ---------------------------------------------------------------------------

  /** `panic_if_not_expect_file`: panic unless the path names an existing regular file. */
  function PanicIfNotExpectFile(fs: Tree, filename: string): (r: Outcome<()>)
    ensures r.Returned? <==> IsFile(fs, filename)
    ensures filename !in fs ==> r == Panicked("not found local file(\"" + filename + "\")")
    ensures IsDir(fs, filename) ==> r == Panicked("local_file_path is not a file(" + filename + ")")
  {
    if filename !in fs then Panicked("not found local file(\"" + filename + "\")")
    else if !IsFile(fs, filename) then Panicked("local_file_path is not a file(" + filename + ")")
    else Returned(())
  }
}
