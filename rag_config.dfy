/** Configuration of the question-answering service: where each setting comes
    from (the Streamlit secrets store, then the process environment, then a
    literal default), the fixed retrieval and chunking parameters, and the
    startup check for missing credentials. */
module RagConfig {
  import opened Common
  import opened Strings

  // Fixed parameters, the same whichever way the settings were read.
  const EmbeddingDimension: int := 384
  const TopKResults: int := 5
  const SimilarityThreshold: real := 0.7
  const ChunkSize: int := 500
  const ChunkOverlap: int := 50

  /** The attributes of a `RAGConfig` object. `maxTokens` and `temperature`
      are kept as the text that `int(...)` and `float(...)` would parse. */
  datatype RAGConfig = RAGConfig(
    openaiApiKey: string,
    pineconeApiKey: string,
    pineconeEnvironment: string,
    pineconeIndexName: string,
    embeddingModel: string,
    chatModel: string,
    maxTokens: string,
    temperature: string,
    appTitle: string,
    appDescription: string,
    embeddingDimension: int,
    topKResults: int,
    similarityThreshold: real,
    chunkSize: int,
    chunkOverlap: int)

  /** `os.getenv(name, default)`. */
  function GetEnv(env: map<string, string>, name: string, default: string): string
  {
    if name in env then env[name] else default
  }

  /** One setting: `st.secrets.get(key, os.getenv(envName, default))` when the
      secrets store can be read (`secrets` is `Some`), and
      `os.getenv(envName, fallbackDefault)` when reading it raised. */
  function Setting(secrets: Option<map<string, string>>, env: map<string, string>,
                   key: string, envName: string, default: string, fallbackDefault: string): (v: string)
    ensures secrets.Some? && key in secrets.value ==> v == secrets.value[key]
    ensures (secrets.None? || key !in secrets.value) && envName in env ==> v == env[envName]
    ensures secrets.Some? && key !in secrets.value && envName !in env ==> v == default
    ensures secrets.None? && envName !in env ==> v == fallbackDefault
  {
    match secrets
    case Some(store) => if key in store then store[key] else GetEnv(env, envName, default)
    case None => GetEnv(env, envName, fallbackDefault)
  }

  /** The attribute assignments of `RAGConfig.__init__`, before validation. */
  function Resolve(secrets: Option<map<string, string>>, env: map<string, string>): (c: RAGConfig)
    ensures c.embeddingDimension == 384 && c.topKResults == 5 && c.similarityThreshold == 0.7
    ensures c.chunkSize == 500 && c.chunkOverlap == 50
    ensures ("PINECONE_INDEX_NAME" !in env && secrets.Some? && "pinecone_index_name" !in secrets.value)
              ==> c.pineconeIndexName == "tupa-index"
    ensures "PINECONE_INDEX_NAME" !in env && secrets.None? ==> c.pineconeIndexName == "tupa-cusco"
  {
    RAGConfig(
      openaiApiKey := Setting(secrets, env, "openai_api_key", "OPENAI_API_KEY", "", ""),
      pineconeApiKey := Setting(secrets, env, "pinecone_api_key", "PINECONE_API_KEY", "", ""),
      pineconeEnvironment := Setting(secrets, env, "pinecone_environment", "PINECONE_ENVIRONMENT", "", ""),
      pineconeIndexName := Setting(secrets, env, "pinecone_index_name", "PINECONE_INDEX_NAME", "tupa-index", "tupa-cusco"),
      embeddingModel := Setting(secrets, env, "embedding_model", "EMBEDDING_MODEL",
                                "sentence-transformers/all-MiniLM-L6-v2", "sentence-transformers/all-MiniLM-L6-v2"),
      chatModel := Setting(secrets, env, "chat_model", "CHAT_MODEL", "gpt-3.5-turbo", "gpt-3.5-turbo"),
      maxTokens := Setting(secrets, env, "max_tokens", "MAX_TOKENS", "1000", "1000"),
      temperature := Setting(secrets, env, "temperature", "TEMPERATURE", "0.7", "0.7"),
      appTitle := Setting(secrets, env, "app_title", "APP_TITLE", "Asistente TUPA RAG", "Asistente TUPA RAG"),
      appDescription := Setting(secrets, env, "app_description", "APP_DESCRIPTION",
                                "Sistema RAG con Pinecone para consultas TUPA",
                                "Sistema RAG con Pinecone para consultas TUPA"),
      embeddingDimension := EmbeddingDimension,
      topKResults := TopKResults,
      similarityThreshold := SimilarityThreshold,
      chunkSize := ChunkSize,
      chunkOverlap := ChunkOverlap)
  }

  /** When the secrets store cannot be read, every setting is what an empty
      secrets store would give, except the index name, whose default is then
      "tupa-cusco" instead of "tupa-index". */
  lemma UnreadableSecretsActAsEmpty(env: map<string, string>)
    ensures Resolve(None, env)
         == Resolve(Some(map[]), env).(pineconeIndexName := GetEnv(env, "PINECONE_INDEX_NAME", "tupa-cusco"))
  {
  }

  /** Position of a credential label in the order the validation checks them. */
  function LabelRank(name: string): int
  {
    if name == "OpenAI API Key" then 0
    else if name == "Pinecone API Key" then 1
    else if name == "Pinecone Environment" then 2
    else 3
  }

  /** `missing_configs` of `_validate_config`. */
  function MissingConfigs(c: RAGConfig): seq<string>
  {
    (if c.openaiApiKey == "" then ["OpenAI API Key"] else [])
    + (if c.pineconeApiKey == "" then ["Pinecone API Key"] else [])
    + (if c.pineconeEnvironment == "" then ["Pinecone Environment"] else [])
  }

  /** The missing list names each empty credential and nothing else, in
      the order the validation checks them. */
  lemma MissingConfigsListed(c: RAGConfig)
    ensures var missing := MissingConfigs(c);
      && ("OpenAI API Key" in missing <==> c.openaiApiKey == "")
      && ("Pinecone API Key" in missing <==> c.pineconeApiKey == "")
      && ("Pinecone Environment" in missing <==> c.pineconeEnvironment == "")
      && (forall i :: 0 <= i < |missing| ==> LabelRank(missing[i]) < 3)
      && (forall i, j :: 0 <= i < j < |missing| ==> LabelRank(missing[i]) < LabelRank(missing[j]))
  {
  }

  datatype Validation = Valid | Invalid(message: string)

  /** `_validate_config`: it raises `ValueError` exactly when a credential is
      missing, naming all missing ones. */
  function ValidateConfig(c: RAGConfig): (r: Validation)
    ensures r.Valid? <==> c.openaiApiKey != "" && c.pineconeApiKey != "" && c.pineconeEnvironment != ""
    ensures r.Invalid? ==> r.message == "Configuración faltante: " + Join(MissingConfigs(c), ", ")
  {
    var missing := MissingConfigs(c);
    if missing == [] then Valid else Invalid("Configuración faltante: " + Join(missing, ", "))
  }

  datatype ConfigResult = Configured(config: RAGConfig) | ConfigError(message: string)

  /** `RAGConfig()`: the resolved settings, or the `ValueError` raised by
      the validation at the end of `__init__`. */
  function NewRAGConfig(secrets: Option<map<string, string>>, env: map<string, string>): (r: ConfigResult)
    ensures var c := Resolve(secrets, env);
      && (r.Configured? <==> c.openaiApiKey != "" && c.pineconeApiKey != "" && c.pineconeEnvironment != "")
      && (r.Configured? ==> r.config == c)
      && (r.ConfigError? ==> r.message == "Configuración faltante: " + Join(MissingConfigs(c), ", "))
  {
    var c := Resolve(secrets, env);
    match ValidateConfig(c)
    case Valid => Configured(c)
    case Invalid(message) => ConfigError(message)
  }

  datatype Status = Status(
    openaiConfigured: bool,
    pineconeConfigured: bool,
    model: string,
    embeddingModel: string,
    indexName: string)

  /** `get_status`. */
  function GetStatus(c: RAGConfig): (s: Status)
    ensures s.openaiConfigured <==> c.openaiApiKey != ""
    ensures s.pineconeConfigured <==> c.pineconeApiKey != "" && c.pineconeEnvironment != ""
    ensures s.model == c.chatModel && s.embeddingModel == c.embeddingModel && s.indexName == c.pineconeIndexName
  {
    Status(
      openaiConfigured := c.openaiApiKey != "",
      pineconeConfigured := c.pineconeApiKey != "" && c.pineconeEnvironment != "",
      model := c.chatModel,
      embeddingModel := c.embeddingModel,
      indexName := c.pineconeIndexName)
  }

  /** A configuration passes validation exactly when its status reports both
      OpenAI and Pinecone as configured. */
  lemma ValidIffConfigured(c: RAGConfig)
    ensures ValidateConfig(c).Valid? <==> GetStatus(c).openaiConfigured && GetStatus(c).pineconeConfigured
  {
  }

  /** The error message for a configuration with no credentials at all. */
  lemma AllMissingMessage(c: RAGConfig)
    requires c.openaiApiKey == "" && c.pineconeApiKey == "" && c.pineconeEnvironment == ""
    ensures ValidateConfig(c)
         == Invalid("Configuración faltante: " + ("OpenAI API Key" + ", " + "Pinecone API Key" + ", " + "Pinecone Environment"))
  {
    assert MissingConfigs(c) == ["OpenAI API Key", "Pinecone API Key", "Pinecone Environment"];
    JoinThree("OpenAI API Key", "Pinecone API Key", "Pinecone Environment", ", ");
  }
}
