/** The string handling inside `gerar_sql_com_langchain` of
    langchain_client.py, lifted out as pure functions: deriving the Ollama
    base URL from the configured endpoint, and pulling the SQL out of the
    model's reply when it is wrapped in a ```sql fenced block. */
module LlmResponse {
  import opened Text

  const GeneratePath: string := "/api/generate"

  const CompletionsPath: string := "/v1/completions"

  /** The base URL handed to the chat client: every occurrence of the
      generate path is deleted, then every occurrence of the completions
      path, each in one left-to-right pass. */
  function OllamaBaseUrl(apiUrl: string): (base: string)
    ensures |base| <= |apiUrl|
  {
    RemoveAll(RemoveAll(apiUrl, GeneratePath), CompletionsPath)
  }

  /** A URL is returned unchanged exactly when it mentions neither path. */
  lemma BaseUrlUnchanged(apiUrl: string)
    ensures OllamaBaseUrl(apiUrl) == apiUrl <==>
      !Contains(apiUrl, GeneratePath) && !Contains(apiUrl, CompletionsPath)
  {
    var once := RemoveAll(apiUrl, GeneratePath);
    RemoveAllUnchanged(apiUrl, GeneratePath);
    RemoveAllUnchanged(once, CompletionsPath);
  }

  /** No suffix of one endpoint path starts the other or itself again, and
      the completions path does not hold the generate path. */
  lemma EndpointPathFacts()
    ensures NoStraddle(GeneratePath, GeneratePath)
    ensures NoStraddle(CompletionsPath, CompletionsPath)
    ensures NoStraddle(GeneratePath, CompletionsPath)
    ensures NoStraddle(CompletionsPath, GeneratePath)
    ensures !Contains(CompletionsPath, GeneratePath)
  {
    GenerateSuffixes();
    CompletionsSuffixes();
    var g, c := GeneratePath, CompletionsPath;
    forall i | 0 <= i && i + |g| <= |c| ensures !OccursAt(c, g, i) {
      assert c[i..i + |g|][1] != g[1];
    }
  }

  lemma GenerateSuffixes()
    ensures NoStraddle(GeneratePath, GeneratePath)
    ensures NoStraddle(GeneratePath, CompletionsPath)
  {
    var g, c := GeneratePath, CompletionsPath;
    forall d | 0 < d < |g| ensures g[d..] != g[..|g| - d] && g[d..] != c[..|g| - d] {
      assert g[d..][0] == g[d] && g[..|g| - d][0] == '/' && c[..|g| - d][0] == '/';
      if d == 4 {
        assert g[d..][1] != g[..|g| - d][1];
        assert g[d..][1] != c[..|g| - d][1];
      }
    }
  }

  lemma CompletionsSuffixes()
    ensures NoStraddle(CompletionsPath, CompletionsPath)
    ensures NoStraddle(CompletionsPath, GeneratePath)
  {
    var g, c := GeneratePath, CompletionsPath;
    forall d | 0 < d < |c| ensures c[d..] != c[..|c| - d] {
      assert c[d..][0] == c[d] && c[..|c| - d][0] == '/';
      if d == 3 {
        assert c[d..][1] != c[..|c| - d][1];
      }
    }
    forall d | 0 < d < |c| && |c| - d <= |g| ensures c[d..] != g[..|c| - d] {
      assert c[d..][0] == c[d] && g[..|c| - d][0] == '/';
      if d == 3 {
        assert c[d..][1] != g[..|c| - d][1];
      }
    }
  }

  /** The behaviour the code comment describes: a host followed by either
      endpoint path yields the host, as long as the host itself mentions
      neither path. */
  lemma BaseUrlOfEndpoint(host: string)
    requires !Contains(host, GeneratePath) && !Contains(host, CompletionsPath)
    ensures OllamaBaseUrl(host + GeneratePath) == host
    ensures OllamaBaseUrl(host + CompletionsPath) == host
  {
    EndpointPathFacts();
    BaseUrlOfGenerateEndpoint(host);
    BaseUrlOfCompletionsEndpoint(host);
  }

  lemma BaseUrlOfGenerateEndpoint(host: string)
    requires !Contains(host, GeneratePath) && !Contains(host, CompletionsPath)
    requires NoStraddle(GeneratePath, GeneratePath)
    ensures OllamaBaseUrl(host + GeneratePath) == host
  {
    var g := GeneratePath;
    RemoveAllUnchanged(host, CompletionsPath);
    ConcatNoEarlyMatch(host, g, g);
    RemoveAllAfterPrefix(host, g, g);
    assert RemoveAll(g, g) == [];
    assert host + [] == host;
  }

  lemma BaseUrlOfCompletionsEndpoint(host: string)
    requires !Contains(host, GeneratePath) && !Contains(host, CompletionsPath)
    requires NoStraddle(CompletionsPath, CompletionsPath)
    requires NoStraddle(GeneratePath, CompletionsPath)
    requires !Contains(CompletionsPath, GeneratePath)
    ensures OllamaBaseUrl(host + CompletionsPath) == host
  {
    var g, c := GeneratePath, CompletionsPath;
    ConcatNoEarlyMatch(host, c, g);
    assert !Contains(host + c, g) by {
      forall i | |host| <= i ensures !OccursAt(host + c, g, i) {
        if i + |g| <= |host + c| {
          assert (host + c)[i..i + |g|] == c[i - |host|..i - |host| + |g|];
          assert !OccursAt(c, g, i - |host|);
        }
      }
    }
    RemoveAllUnchanged(host + c, g);
    ConcatNoEarlyMatch(host, c, c);
    RemoveAllAfterPrefix(host, c, c);
    assert RemoveAll(c, c) == [];
    assert host + [] == host;
  }

  /** The configured default: http://localhost:11434/api/generate becomes
      http://localhost:11434. */
  lemma DefaultEndpoint(host: string)
    requires host == "http://localhost:11434"
    ensures OllamaBaseUrl(host + GeneratePath) == host
  {
    forall i | 0 <= i < |host| ensures host[i] != '/' || host[i + 1] == '/' || host[i + 1] == 'l' {
    }
    forall i | 0 <= i && i + |GeneratePath| <= |host| ensures !OccursAt(host, GeneratePath, i) {
      assert host[i..i + |GeneratePath|][0] == host[i] && host[i..i + |GeneratePath|][1] == host[i + 1];
    }
    forall i | 0 <= i && i + |CompletionsPath| <= |host| ensures !OccursAt(host, CompletionsPath, i) {
      assert host[i..i + |CompletionsPath|][0] == host[i] && host[i..i + |CompletionsPath|][1] == host[i + 1];
    }
    BaseUrlOfEndpoint(host);
  }

  /** Each deletion is a single pass and the generate path goes first, so a
      completions path spliced into a generate path leaves the generate path
      behind. */
  lemma SplicedPathSurvives(url: string)
    requires url == "/api/gen" + CompletionsPath + "erate"
    ensures OllamaBaseUrl(url) == GeneratePath
  {
    var c := CompletionsPath;
    var h, rest := "/api/gen", c + "erate";
    SplicedFacts(url);
    RemoveAllUnchanged(url, GeneratePath);
    RemoveAllAfterPrefix(h, rest, c);
    assert rest[..|c|] == c && rest[|c|..] == "erate";
    assert RemoveAll(rest, c) == RemoveAll("erate", c) == "erate";
    assert h + "erate" == GeneratePath;
  }

  lemma SplicedFacts(url: string)
    requires url == "/api/gen" + CompletionsPath + "erate"
    ensures url == "/api/gen" + (CompletionsPath + "erate")
    ensures !Contains(url, GeneratePath)
    ensures forall i :: 0 <= i < 8 ==> !OccursAt(url, CompletionsPath, i)
  {
    var g, c := GeneratePath, CompletionsPath;
    forall i | 0 <= i && i + |g| <= |url| ensures !OccursAt(url, g, i) {
      assert url[i..i + |g|][0] == url[i] && url[i..i + |g|][1] == url[i + 1];
      assert url[i..i + |g|][8] == url[i + 8];
    }
    forall i | 0 <= i < 8 && i + |c| <= |url| ensures !OccursAt(url, c, i) {
      assert url[i..i + |c|][0] == url[i] && url[i..i + |c|][1] == url[i + 1];
    }
  }

  /** The opening fence ```sql as it appears once the reply is upper-cased:
      the pattern is matched with IGNORECASE. */
  const OpenFence: string := "```SQL"

  const Fence: string := "```"

  /** The pattern ```sql\s*(.*?)\s*``` (DOTALL, IGNORECASE) matches `text`
      from index `i` up to the closing fence at `j`: an opening fence at `i`
      and, the group being lazy, the first fence at or after its end. */
  ghost predicate MatchAt(text: string, i: int, j: int)
    ensures MatchAt(text, i, j) <==>
      0 <= i && OccursAt(Upper(text), OpenFence, i) && Find(text, Fence, i + |OpenFence|) == Some(j)
  {
    && OccursAt(Upper(text), OpenFence, i)
    && i + |OpenFence| <= j
    && OccursAt(text, Fence, j)
    && forall k :: i + |OpenFence| <= k < j ==> !OccursAt(text, Fence, k)
  }

  /** re.search reports the match that starts leftmost: the leftmost opening
      fence, closed by the first fence after it. */
  ghost predicate SearchFinds(text: string, i: int, j: int)
    ensures SearchFinds(text, i, j) <==>
      0 <= i && Find(Upper(text), OpenFence, 0) == Some(i) && Find(text, Fence, i + |OpenFence|) == Some(j)
  {
    LeftmostMatchOpensFirst(text, i, j);
    && MatchAt(text, i, j)
    && forall i', j' :: 0 <= i' < i ==> !MatchAt(text, i', j')
  }

  /** A match with no match starting before it starts at the leftmost opening
      fence: an earlier opening fence would be closed by this match's own
      closing fence at the latest. */
  lemma LeftmostMatchOpensFirst(text: string, i: int, j: int)
    ensures (MatchAt(text, i, j) && forall i', j' :: 0 <= i' < i ==> !MatchAt(text, i', j')) <==>
      (0 <= i && Find(Upper(text), OpenFence, 0) == Some(i) && Find(text, Fence, i + |OpenFence|) == Some(j))
  {
    if MatchAt(text, i, j) && forall i', j' :: 0 <= i' < i ==> !MatchAt(text, i', j') {
      assert OccursAt(Upper(text), OpenFence, i);
      var i0 := Find(Upper(text), OpenFence, 0).value;
      assert i0 <= i && OccursAt(text, Fence, j);
      var j0 := Find(text, Fence, i0 + |OpenFence|).value;
      assert MatchAt(text, i0, j0);
    }
    if 0 <= i && Find(Upper(text), OpenFence, 0) == Some(i) && Find(text, Fence, i + |OpenFence|) == Some(j) {
      forall i', j' | 0 <= i' < i ensures !MatchAt(text, i', j') {
        assert !OccursAt(Upper(text), OpenFence, i');
      }
    }
  }

  /** The SQL taken from the model's reply: the reply is stripped, then the
      fenced block is searched for in it. */
  function ExtractSql(response: string): (sql: string)
    ensures |sql| <= |response|
    ensures Trimmed(sql)
    ensures forall i, j :: SearchFinds(Strip(response), i, j) ==>
      sql == Strip(Strip(response)[i + |OpenFence|..j])
    ensures (forall i, j :: !MatchAt(Strip(response), i, j)) ==> sql == Strip(response)
  {
    FencedOrWhole(Strip(response))
  }

  /** re.search with the fenced-block pattern: the span from the leftmost
      opening fence to the first fence after it, when both exist. It is the
      one span the pattern's leftmost match can have. */
  function SearchFence(text: string): (span: Option<(nat, nat)>)
    ensures span.Some? ==> SearchFinds(text, span.value.0, span.value.1)
    ensures span.Some? ==> forall i, j :: SearchFinds(text, i, j) ==> (i, j) == span.value
    ensures span.None? ==> forall i, j :: !MatchAt(text, i, j)
  {
    match Find(Upper(text), OpenFence, 0)
    case None =>
      NoOpenNoMatch(text);
      None
    case Some(i) =>
      match Find(text, Fence, i + |OpenFence|)
      case None =>
        UnclosedNoMatch(text, i);
        None
      case Some(j) =>
        FirstMatchFound(text, i, j);
        Some((i, j))
  }

  /** The stripped group of the fenced block when re.search finds one in
      `text`, else `text` itself. The \s* on both sides of the group and the
      strip() of the group leave exactly the stripped text between the
      fences. */
  function FencedOrWhole(text: string): (sql: string)
    ensures |sql| <= |text|
    ensures Trimmed(text) ==> Trimmed(sql)
    ensures forall i, j :: SearchFinds(text, i, j) ==> sql == Strip(text[i + |OpenFence|..j])
    ensures (forall i, j :: !MatchAt(text, i, j)) ==> sql == text
  {
    match SearchFence(text)
    case None => text
    case Some((i, j)) => Strip(text[i + |OpenFence|..j])
  }

  /** The backticks of an upper-cased opening fence are backticks of the
      original text. */
  lemma OpenFenceStartsWithFence(text: string, i: int)
    ensures OccursAt(Upper(text), OpenFence, i) ==> OccursAt(text, Fence, i)
  {
    var u := Upper(text);
    if OccursAt(u, OpenFence, i) {
      assert u[i] == u[i..i + 6][0] && u[i + 1] == u[i..i + 6][1] && u[i + 2] == u[i..i + 6][2];
      assert UpperChar(text[i]) == '`' && UpperChar(text[i + 1]) == '`' && UpperChar(text[i + 2]) == '`';
      assert text[i..i + 3] == [text[i], text[i + 1], text[i + 2]];
    }
  }

  /** Two opening fences never overlap. */
  lemma OpenFencesApart(text: string, i: int, k: int)
    ensures OccursAt(Upper(text), OpenFence, i) && OccursAt(Upper(text), OpenFence, k) && i < k
      ==> i + |OpenFence| <= k
  {
    var u := Upper(text);
    if OccursAt(u, OpenFence, i) && i < k < i + |OpenFence| && k + 6 <= |u| {
      assert u[i + 3] == u[i..i + 6][3] == 'S';
      assert u[k] == u[k..k + 6][0] && u[k + 1] == u[k..k + 6][1] && u[k + 3] == u[k..k + 6][3];
      assert k - i <= 2 ==> u[k + 3] == u[i..i + 6][k + 3 - i];
      assert k - i > 2 ==> u[k] == u[i..i + 6][k - i];
    }
  }

  lemma NoOpenNoMatch(text: string)
    requires Find(Upper(text), OpenFence, 0).None?
    ensures forall i, j :: !MatchAt(text, i, j)
  {
  }

  /** When the leftmost opening fence is never closed, no later opening
      fence can be: its own backticks would close the first one. */
  lemma UnclosedNoMatch(text: string, i: nat)
    requires Find(Upper(text), OpenFence, 0) == Some(i)
    requires Find(text, Fence, i + |OpenFence|).None?
    ensures forall i', j :: !MatchAt(text, i', j)
  {
    forall i' | i < i' ensures !OccursAt(Upper(text), OpenFence, i') {
      OpenFencesApart(text, i, i');
      OpenFenceStartsWithFence(text, i');
    }
  }

  lemma FirstMatchFound(text: string, i: nat, j: nat)
    requires Find(Upper(text), OpenFence, 0) == Some(i)
    requires Find(text, Fence, i + |OpenFence|) == Some(j)
    ensures SearchFinds(text, i, j)
    ensures forall i', j' :: SearchFinds(text, i', j') ==> i' == i && j' == j
  {
    assert MatchAt(text, i, j);
  }

  /** A reply without any fence is used whole, stripped. */
  lemma PlainReplyIsUsedWhole(response: string)
    requires !Contains(Strip(response), Fence)
    ensures ExtractSql(response) == Strip(response)
  {
  }

  /** A reply with prose around a fenced block yields the block's SQL. */
  lemma FencedReplyScenario(response: string)
    requires response == "Here it is:\n```sql\n  SELECT 1;\n```\nDone."
    ensures ExtractSql(response) == "SELECT 1;"
  {
    TrimmedSlice(response, 0, |response|);
    ScenarioOpenFence(response);
    ScenarioCloseFence(response);
    ScenarioBody(response);
    FencedBlockUsed(response, 12, 31);
  }

  /** When a stripped reply holds a fenced block and no earlier opening fence
      starts one, the stripped text between its fences is what is used. */
  lemma FencedBlockUsed(response: string, i: int, j: int)
    requires Strip(response) == response
    requires MatchAt(response, i, j)
    requires forall i', j' :: 0 <= i' < i ==> !MatchAt(response, i', j')
    ensures ExtractSql(response) == Strip(response[i + |OpenFence|..j])
  {
    assert SearchFinds(Strip(response), i, j);
  }

  lemma ScenarioBody(text: string)
    requires text == "Here it is:\n```sql\n  SELECT 1;\n```\nDone."
    ensures Strip(text[18..31]) == "SELECT 1;"
  {
    var inner := text[18..31];
    forall k | 0 <= k < |inner| ensures inner[k] == text[18 + k] { }
    assert inner[3..12] == text[21..30] == "SELECT 1;";
    TrimmedSlice(inner, 3, 12);
  }

  lemma ScenarioOpenFence(text: string)
    requires text == "Here it is:\n```sql\n  SELECT 1;\n```\nDone."
    ensures OccursAt(Upper(text), OpenFence, 12)
    ensures forall i', j' :: 0 <= i' < 12 ==> !MatchAt(text, i', j')
  {
    var u := Upper(text);
    forall k | 0 <= k < 6 ensures u[12..18][k] == OpenFence[k] {
      assert u[12 + k] == UpperChar(text[12 + k]);
    }
    forall i', j' | 0 <= i' < 12 ensures !MatchAt(text, i', j') {
      assert u[i'] == UpperChar(text[i']) != '`';
      if i' + 6 <= |u| {
        assert u[i'..i' + 6][0] == u[i'];
      }
    }
  }

  lemma ScenarioCloseFence(text: string)
    requires text == "Here it is:\n```sql\n  SELECT 1;\n```\nDone."
    ensures OccursAt(text, Fence, 31)
    ensures forall k :: 18 <= k < 31 ==> !OccursAt(text, Fence, k)
  {
    assert text[31..34] == Fence;
    forall k | 18 <= k < 31 ensures !OccursAt(text, Fence, k) {
      assert text[k..k + 3][0] == text[k] != '`';
    }
  }
}
