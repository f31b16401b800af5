/** The static tables between MCP releases and the Minecraft version each
    one decompiles (mcp_deploy.py:43-63). */
module Versions {

  /** mcp2mcversion. */
  const Mcp2Mc: map<string, string> := map[
    "mcp50" := "1.0.0",
    "mcp56" := "1.1.0",
    "mcp60" := "1.2.3",
    "mcp61" := "1.2.4",
    "mcp62" := "1.2.5",
    "mcp70" := "1.3.1",
    "mcp70a" := "1.3.1",
    "mcp72" := "1.3.2"
  ]

  /** mc2mcpversion. */
  const Mc2Mcp: map<string, string> := map[
    "1.0.0" := "mcp50",
    "1.1.0" := "mcp56",
    "1.2.3" := "mcp60",
    "1.2.4" := "mcp61",
    "1.2.5" := "mcp62",
    "1.3.1" := "mcp70a",
    "1.3.2" := "mcp72"
  ]

  /** Looking a Minecraft version up, then its MCP release, gives the version
      back: `mc2mcpversion` picks one of the releases for each version. */
  lemma McRoundTrip(v: string)
    requires v in Mc2Mcp
    ensures Mc2Mcp[v] in Mcp2Mc && Mcp2Mc[Mc2Mcp[v]] == v
  {
  }

  /** Both tables cover the same Minecraft versions. */
  lemma SameVersions()
    ensures Mcp2Mc.Values == Mc2Mcp.Keys
  {
    assert Mcp2Mc["mcp50"] == "1.0.0" && Mcp2Mc["mcp56"] == "1.1.0" && Mcp2Mc["mcp60"] == "1.2.3";
    assert Mcp2Mc["mcp61"] == "1.2.4" && Mcp2Mc["mcp62"] == "1.2.5" && Mcp2Mc["mcp70a"] == "1.3.1";
    assert Mcp2Mc["mcp72"] == "1.3.2";
  }

  /** The other direction holds for every release except mcp70, which shares
      Minecraft 1.3.1 with mcp70a and so maps back to mcp70a. */
  lemma McpRoundTrip(m: string)
    requires m in Mcp2Mc
    ensures Mcp2Mc[m] in Mc2Mcp
    ensures Mc2Mcp[Mcp2Mc[m]] == m <==> m != "mcp70"
  {
  }

  lemma McpRoundTripFails()
    ensures Mcp2Mc["mcp70"] == "1.3.1" && Mc2Mcp["1.3.1"] == "mcp70a"
  {
  }
}
