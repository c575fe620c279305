# seahorse server: query-parameter parsing and result ordering

This project models the pure logic in the REST server module of seahorse (the
HPO lookup and similarity server), `src/server/run/mod.rs`:

- **Comma-separated list parameters** (`CommaList`). `vec_str_deserialize`
  turns one query-string value into a list by splitting at every `,`;
  `option_vec_str_deserialize` does the same but reads the empty string as
  `None`. The model is `Split`/`Join` over `seq<char>`, with `VecStr` and
  `OptionVecStr` as the two helpers. The lemmas prove the round trip in both
  directions, that no piece contains `,`, that there is one more piece than
  there are commas, and that empty pieces are kept.
- **The `Match` mode** (`MatchMode`). This is the four-variant enum whose default
  is `Exact`. Its wire names are the ASCII-lowercased variant identifiers.
  The lemmas prove that parsing a name gives the variant back, that the
  names are distinct, and that parsing is case-sensitive.
- **Ordering of the result records** (`ResultRecords`, built on `Cmp`).
  `ResultGene` and `ResultHpoTerm` derive `Ord`, `Eq` and `Default`. The
  model writes each derived `cmp` as a three-way comparison over the fields in
  declaration order. It proves that `cmp` agrees with `Eq`, is reversed by
  swapping its operands, and is transitive. It proves that the induced `<=` is
  a total order and that the derived default is the least element. String
  comparison (`Cmp.CmpString`) is proved equal to a direct definition of
  lexicographic order: a proper prefix comes first, otherwise the first
  differing character decides.

`Wrappers` holds the `Option` type shared by the modules.

## Model

| member | source | states |
|---|---|---|
| CommaList.FirstSep | src/server/run/mod.rs:135 | the index found is at most the length, no `,` comes before it, and a `,` sits at it unless it is the end |
| CommaList.VecStr | src/server/run/mod.rs:129-138 | the list re-joins with `,` to the input, has one more element than the input has commas, and no element contains `,` |
| CommaList.OptionVecStr | src/server/run/mod.rs:141-156 | the result is `None` exactly when the input is empty; otherwise it is `Some` of the same list `vec_str_deserialize` gives |
| CommaList.JoinSplit | src/server/run/mod.rs:134-137 | joining the pieces of a split with `,` gives back the input exactly, so nothing is trimmed or dropped |
| CommaList.SplitJoin | src/server/run/mod.rs:134-137 | splitting a non-empty list of comma-free pieces joined with `,` gives back that list, so split is the inverse of join |
| CommaList.SplitNoSep | src/server/run/mod.rs:134-137 | no piece contains `,` |
| CommaList.SplitCount | src/server/run/mod.rs:134-137 | the number of pieces is the number of `,` in the input plus one, so the list is never empty |
| CommaList.SplitConcat | src/server/run/mod.rs:134-137 | splitting `a + "," + b` gives the pieces of `a` followed by the pieces of `b`, so nothing around a separator is merged or filtered out |
| CommaList.SplitEmpty | src/server/run/mod.rs:134-137 | the empty string gives one empty piece |
| CommaList.SplitTrailingSep | src/server/run/mod.rs:134-137 | a trailing `,` adds a trailing empty piece |
| CommaList.SplitLeadingSep | src/server/run/mod.rs:134-137 | a leading `,` adds a leading empty piece |
| CommaList.SplitDoubleSep | src/server/run/mod.rs:134-137 | `"a,,b"` gives `"a"`, `""`, `"b"` |
| MatchMode.DefaultIsExact | src/server/run/mod.rs:71-76 | the default mode is `Exact`, serialized as `"exact"` |
| MatchMode.ToName | src/server/run/mod.rs:72-83 | every serialized name is a non-empty string of lower-case letters |
| MatchMode.AsciiLowercase | src/server/run/mod.rs:72 | the lower-cased string has the input's length and each character is that of the input, lower-cased |
| MatchMode.ToNameIsLowercasedIdent | src/server/run/mod.rs:72-83 | each serialized name is the variant's identifier in ASCII lower case |
| MatchMode.FromNameToName | src/server/run/mod.rs:72-83 | parsing the name of a variant returns that variant |
| MatchMode.ToNameFromName | src/server/run/mod.rs:72-83 | a string is accepted only if it is the name of the variant returned |
| MatchMode.ToNameInjective | src/server/run/mod.rs:72-83 | distinct variants have distinct names |
| MatchMode.VariantIdentRejected | src/server/run/mod.rs:72-83 | the capitalised identifiers (`"Exact"`, …) are not accepted, because names are case-sensitive |
| Cmp.CmpInt | src/server/run/mod.rs:101 | the comparison of two `u32` values is `Less`, `Equal` or `Greater` exactly as the first is below, equal to or above the second |
| Cmp.CmpStringLess | src/server/run/mod.rs:103 | string comparison says `Less` exactly when the first string is a proper prefix of the second or is smaller at the first differing character |
| Cmp.CmpStringEqual | src/server/run/mod.rs:103 | string comparison says `Equal` exactly when the strings are equal |
| Cmp.CmpStringReverse | src/server/run/mod.rs:103 | swapping the strings reverses the result |
| Cmp.CmpStringTransitive | src/server/run/mod.rs:103 | `Less` is transitive on strings |
| Cmp.CmpOptionEqual | src/server/run/mod.rs:105 | comparison of `Option<String>` says `Equal` exactly when the values are equal |
| Cmp.CmpOptionReverse | src/server/run/mod.rs:105 | swapping the options reverses the result |
| Cmp.CmpOptionTransitive | src/server/run/mod.rs:105 | `Less` is transitive on `Option<String>` |
| ResultRecords.CmpGeneFieldOrder | src/server/run/mod.rs:86-106 | a smaller `ncbi_gene_id` comes first whatever the other fields hold; with equal IDs the symbol decides, then `hgnc_id`, with `None` before `Some` |
| ResultRecords.CmpGeneEqual | src/server/run/mod.rs:93-96 | the derived `cmp` says `Equal` exactly when the derived `==` holds |
| ResultRecords.CmpGeneReverse | src/server/run/mod.rs:93-94 | swapping the genes reverses the result |
| ResultRecords.CmpGeneTransitive | src/server/run/mod.rs:93-94 | `Less` is transitive on genes |
| ResultRecords.GeneLeTotalOrder | src/server/run/mod.rs:86-106 | `<=` on `ResultGene` is reflexive, antisymmetric, transitive and total |
| ResultRecords.DefaultGeneIsLeast | src/server/run/mod.rs:90-106 | the derived default gene (ID 0, empty symbol, no HGNC ID) is `<=` every gene |
| ResultRecords.CmpTermFieldOrder | src/server/run/mod.rs:109-126 | `term_id` decides when the IDs differ, and `name` only breaks ties |
| ResultRecords.CmpTermEqual | src/server/run/mod.rs:116-119 | the derived `cmp` says `Equal` exactly when the derived `==` holds |
| ResultRecords.CmpTermReverse | src/server/run/mod.rs:116-117 | swapping the terms reverses the result |
| ResultRecords.CmpTermTransitive | src/server/run/mod.rs:116-117 | `Less` is transitive on terms |
| ResultRecords.TermLeTotalOrder | src/server/run/mod.rs:109-126 | `<=` on `ResultHpoTerm` is reflexive, antisymmetric, transitive and total |
| ResultRecords.DefaultTermIsLeast | src/server/run/mod.rs:113-126 | the derived default term (empty ID, empty name) is `<=` every term |

## Left out

- `main` and `run` (src/server/run/mod.rs:197-301): they bind the HTTP server, share data among workers through `Arc`, read files, read environment variables and write logs. All of this is I/O or concurrency.
- `print_hints` (src/server/run/mod.rs:223-240): it only writes log lines.
- `CustomError` and its trait impls (src/server/run/mod.rs:48-68): they format errors from `anyhow` for the web framework.
- `Args` and `ApiDoc` (src/server/run/mod.rs:29-46, :159-195): their behaviour is generated by the `clap` and `utoipa` derive macros.
- The full-text index (`crate::index::Index`), the HGNC cross-reference loader and `inverse_hashmap`, and the handler modules `hpo_genes`, `hpo_terms`, `hpo_omims` and `hpo_sim`. Their code is not part of this model, so modelling them here would invent behaviour. The matching, query-assembly and similarity components described for the wider system live there.
- `WebServerData` (src/server/run/mod.rs:17-26): it is a container for externally built state and has no logic.
- The failure of `String::deserialize` inside both list helpers (src/server/run/mod.rs:133, :145): it is an error in the serde library. `VecStr` and `OptionVecStr` take the string that was already deserialized.
- `Cmp.CmpString`: Rust compares the UTF-8 bytes of a `String`; the model compares `char`s (code points). The two orders agree on valid UTF-8, which every Rust `String` is.
- `MatchMode.FromName`: serde's derived deserializer for unit variants may also accept other encodings that some formats use, such as a variant index. Only the string form that the query string carries is modelled.
- `PartialOrd::partial_cmp` and the operators `<`, `>`, `>=` are not modelled separately. The derived `partial_cmp` is `Some(cmp)`, and `GeneLe`/`TermLe` model `<=`.
