/** The table that rewrites method names of older clients to their present form. */
module LegacyAliases {

  datatype Alias = Alias(legacy: string, canonical: string)

  // The table, in source order; it is cut into parts, and long names at their namespace,
  // only to keep each proof small.

  const ROWS_0: seq<Alias> := [
    Alias("channels.list", "openhuman.channels_list"),
    Alias("mcp_clients.list", "openhuman.mcp_clients_" + "installed_list"),
    Alias("openhuman.channels.list", "openhuman.channels_list"),
    Alias("openhuman.get_" + "analytics_settings", "openhuman.config_" + "get_analytics_settings"),
    Alias("openhuman.get_" + "composio_trigger_settings", "openhuman.config_" + "get_composio_trigger_settings")
  ]

  const ROWS_1: seq<Alias> := [
    Alias("openhuman.get_" + "dashboard_settings", "openhuman.config_" + "get_dashboard_settings"),
    Alias("openhuman.get_" + "config", "openhuman.config_" + "get"),
    Alias("openhuman.get_" + "runtime_flags", "openhuman.config_" + "get_runtime_flags"),
    Alias("openhuman.mcp_clients_" + "list", "openhuman.mcp_clients_" + "installed_list"),
    Alias("openhuman.mcp_" + "list", "openhuman.mcp_clients_" + "installed_list")
  ]

  const ROWS_2: seq<Alias> := [
    Alias("openhuman.mcp_" + "servers_list", "openhuman.mcp_clients_" + "installed_list"),
    Alias("openhuman.ping", "core.ping"),
    Alias("openhuman.set_" + "browser_allow_all", "openhuman.config_" + "set_browser_allow_all"),
    Alias("openhuman.tool_" + "registry_call", "openhuman.mcp_clients_" + "tool_call"),
    Alias("openhuman.update_" + "analytics_settings", "openhuman.config_" + "update_analytics_settings")
  ]

  const ROWS_3: seq<Alias> := [
    Alias("openhuman.update_" + "autonomy_settings", "openhuman.config_" + "update_autonomy_settings"),
    Alias("openhuman.update_" + "browser_settings", "openhuman.config_" + "update_browser_settings"),
    Alias("openhuman.update_" + "composio_trigger_settings", "openhuman.config_" + "update_composio_trigger_settings"),
    Alias("openhuman.update_" + "local_ai_settings", "openhuman.inference_" + "update_local_settings"),
    Alias("openhuman.update_" + "memory_settings", "openhuman.config_" + "update_memory_settings")
  ]

  const ROWS_4: seq<Alias> := [
    Alias("openhuman.update_" + "model_settings", "openhuman.inference_" + "update_model_settings"),
    Alias("openhuman.update_" + "runtime_settings", "openhuman.config_" + "update_runtime_settings"),
    Alias("openhuman.update_" + "screen_intelligence_settings", "openhuman.config_" + "update_screen_intelligence_settings"),
    Alias("openhuman.workspace_" + "onboarding_flag_exists", "openhuman.config_" + "workspace_onboarding_flag_exists"),
    Alias("openhuman.workspace_" + "onboarding_flag_set", "openhuman.config_" + "workspace_onboarding_flag_set")
  ]

  const ROWS_5: seq<Alias> := [
    Alias("openhuman.local_ai_" + "apply_preset", "openhuman.inference_" + "apply_preset"),
    Alias("openhuman.local_ai_" + "agent_chat", "openhuman.inference_" + "agent_chat"),
    Alias("openhuman.local_ai_" + "agent_chat_simple", "openhuman.inference_" + "agent_chat_simple"),
    Alias("openhuman.local_ai_" + "assets_status", "openhuman.inference_" + "assets_status"),
    Alias("openhuman.local_ai_" + "device_profile", "openhuman.inference_" + "device_profile")
  ]

  const ROWS_6: seq<Alias> := [
    Alias("openhuman.local_ai_" + "diagnostics", "openhuman.inference_" + "diagnostics"),
    Alias("openhuman.local_ai_" + "download_asset", "openhuman.inference_" + "download_asset"),
    Alias("openhuman.local_ai_" + "downloads_progress", "openhuman.inference_" + "downloads_progress"),
    Alias("openhuman.local_ai_" + "install_piper", "openhuman.inference_" + "install_piper"),
    Alias("openhuman.local_ai_" + "install_whisper", "openhuman.inference_" + "install_whisper")
  ]

  const ROWS_7: seq<Alias> := [
    Alias("openhuman.local_ai_" + "piper_install_status", "openhuman.inference_" + "piper_install_status"),
    Alias("health_snapshot", "openhuman.health_" + "snapshot"),
    Alias("health", "openhuman.health_" + "snapshot"),
    Alias("health.get", "openhuman.health_" + "snapshot"),
    Alias("health.snapshot", "openhuman.health_" + "snapshot")
  ]

  const ROWS_8: seq<Alias> := [
    Alias("health.status", "openhuman.health_" + "snapshot"),
    Alias("openhuman.system_info", "openhuman.health_" + "system_info"),
    Alias("openhuman.inference_" + "embed", "openhuman.embeddings_" + "embed"),
    Alias("openhuman.local_ai_" + "presets", "openhuman.inference_" + "presets"),
    Alias("openhuman.local_ai_" + "test_connection", "openhuman.inference_" + "test_connection")
  ]

  const ROWS_9: seq<Alias> := [
    Alias("openhuman.local_ai_" + "transcribe", "openhuman.inference_" + "transcribe"),
    Alias("openhuman.local_ai_" + "transcribe_bytes", "openhuman.inference_" + "transcribe_bytes"),
    Alias("openhuman.local_ai_" + "tts", "openhuman.inference_" + "tts"),
    Alias("openhuman.local_ai_" + "whisper_install_status", "openhuman.inference_" + "whisper_install_status"),
    Alias("openhuman.providers_" + "list_models", "openhuman.inference_" + "list_models")
  ]

  const LEGACY_ALIASES: seq<Alias> :=
    ROWS_0 + ROWS_1 + ROWS_2 + ROWS_3 + ROWS_4 + ROWS_5
    + ROWS_6 + ROWS_7 + ROWS_8 + ROWS_9

  /** No canonical name of the table is itself a legacy name. */
  predicate NoChain(rows: seq<Alias>) {
    forall row, other :: row in rows && other in rows ==> row.canonical != other.legacy
  }

  type AliasTable = rows: seq<Alias> | NoChain(rows) witness []

  /** The first matching row wins; other names pass through. */
  function ResolveIn(rows: seq<Alias>, name: string): string {
    if rows == [] then name
    else if rows[0].legacy == name then rows[0].canonical
    else ResolveIn(rows[1..], name)
  }

  predicate IsAlias(rows: seq<Alias>, name: string) {
    exists row :: row in rows && row.legacy == name
  }

  lemma {:induction false} ResolveInFindsRow(rows: seq<Alias>, name: string)
    ensures !IsAlias(rows, name) ==> ResolveIn(rows, name) == name
    ensures IsAlias(rows, name) ==> Alias(name, ResolveIn(rows, name)) in rows
  {
    if rows != [] && rows[0].legacy != name {
      ResolveInFindsRow(rows[1..], name);
      assert rows == [rows[0]] + rows[1..];
    }
  }

  /** In a table without chains, no rewritten name is itself rewritten, and every alias is. */
  lemma CanonicalIsNotAlias(table: AliasTable, name: string)
    ensures !IsAlias(table, ResolveIn(table, name))
    ensures IsAlias(table, name) <==> ResolveIn(table, name) != name
  {
    ResolveInFindsRow(table, name);
  }

  lemma ResolveInIsIdempotent(table: AliasTable, name: string)
    ensures ResolveIn(table, ResolveIn(table, name)) == ResolveIn(table, name)
  {
    CanonicalIsNotAlias(table, name);
    CanonicalIsNotAlias(table, ResolveIn(table, name));
  }

  // ----- the table has no chains

  /** A few characters tell the canonical names of the table from the legacy ones. */
  predicate LooksCanonical(s: string) {
    || (|s| > 1 && s[0] == 'c' && s[1] == 'o')
    || (|s| > 18 && s[0] == 'o' &&
        match s[10]
        case 'c' => s[11] == 'o' || s[18] == '_'
        case 'e' => true
        case 'h' => true
        case 'i' => |s| > 20 && s[20] != 'e'
        case 'm' => |s| > 22 && s[22] != 'l'
        case _ => false)
  }

  predicate Separated(row: Alias) {
    !LooksCanonical(row.legacy) && LooksCanonical(row.canonical)
  }

  predicate AllSeparated(rows: seq<Alias>) {
    forall i :: 0 <= i < |rows| ==> Separated(rows[i])
  }

  lemma SeparatesRows0() ensures AllSeparated(ROWS_0) {}
  lemma SeparatesRows1() ensures AllSeparated(ROWS_1) {}
  lemma SeparatesRows2() ensures AllSeparated(ROWS_2) {}
  lemma SeparatesRows3() ensures AllSeparated(ROWS_3) {}
  lemma SeparatesRows4() ensures AllSeparated(ROWS_4) {}
  lemma SeparatesRows5() ensures AllSeparated(ROWS_5) {}
  lemma SeparatesRows6() ensures AllSeparated(ROWS_6) {}
  lemma SeparatesRows7() ensures AllSeparated(ROWS_7) {}
  lemma SeparatesRows8() ensures AllSeparated(ROWS_8) {}
  lemma SeparatesRows9() ensures AllSeparated(ROWS_9) {}

  lemma TableIsSeparated()
    ensures AllSeparated(LEGACY_ALIASES)
  {
    SeparatesRows0();
    SeparatesRows1();
    SeparatesRows2();
    SeparatesRows3();
    SeparatesRows4();
    SeparatesRows5();
    SeparatesRows6();
    SeparatesRows7();
    SeparatesRows8();
    SeparatesRows9();
  }

  /** The table of the core rewrites no name twice. */
  lemma TableHasNoChain()
    ensures NoChain(LEGACY_ALIASES)
  {
    TableIsSeparated();
    forall row, other | row in LEGACY_ALIASES && other in LEGACY_ALIASES
      ensures row.canonical != other.legacy
    {
      assert Separated(row) && Separated(other);
    }
  }

  /** `resolve_legacy`. */
  function ResolveLegacy(name: string): string {
    ResolveIn(LEGACY_ALIASES, name)
  }

  /** Resolution is idempotent on every string. */
  lemma ResolveLegacyIsIdempotent(name: string)
    ensures ResolveLegacy(ResolveLegacy(name)) == ResolveLegacy(name)
  {
    TableHasNoChain();
    ResolveInIsIdempotent(LEGACY_ALIASES, name);
  }
}
