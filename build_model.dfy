/**
  What the export generator reads from the build description: exported
  targets and their raw properties, and the collaborators it consults
  (target lookup, link information, sonames, the missing-target hook, the
  generator-expression primitives and the path predicates). Collaborators
  whose code lives outside the generator are total functions held by `Env`:
  the model says nothing about them beyond their signature.
 */
module BuildModel {
  import opened Wrappers

  /** `cmTarget::TargetType`; `OtherKind` stands for the kinds that are never exported as a library or executable. */
  datatype TargetKind =
    | Executable
    | StaticLibrary
    | SharedLibrary
    | ModuleLibrary
    | UnknownLibrary
    | InterfaceLibrary
    | OtherKind

  /** `cmPolicies::PolicyStatus`. */
  datatype PolicyStatus = OLD | WARN | NEW | REQUIRED_IF_USED | REQUIRED_ALWAYS

  /** The two `cmake::MessageType` values the generator issues. */
  datatype Severity = Warning | FatalError

  /** `cmGeneratorExpression::PreprocessContext`. */
  datatype PreprocessContext = StripAllGeneratorExpressions | BuildInterface | InstallInterface

  /** Property name to value, as `ImportPropertyMap` (a `std::map<std::string, std::string>`). */
  type ImportPropertyMap = map<string, string>

  /** A target of the build description, with the raw properties `GetProperty` returns. */
  datatype Target = Target(
    name: string,
    exportName: string,
    kind: TargetKind,
    imported: bool,
    linkable: bool,
    properties: map<string, string>,
    cmp0022: PolicyStatus,
    cmp0041: PolicyStatus,
    executableWithExports: bool,
    frameworkOnApple: bool,
    appBundleOnApple: bool,
    cfBundleOnApple: bool)

  /** `target->GetProperty(key)`: `None` is the null pointer of an unset property. */
  function GetProperty(t: Target, key: string): Option<string>
  {
    if key in t.properties then Some(t.properties[key]) else None
  }

  /** `cmTarget::LinkInterface` for one configuration. */
  datatype LinkInterface = LinkInterface(
    languages: seq<string>,
    libraries: seq<string>,
    sharedDeps: seq<string>,
    multiplicity: nat,
    implementationIsInterface: bool)

  /**
    What the `HandleMissingTarget` hook does for a dependee outside the export
    set: the string it leaves in its output argument (empty for none) and the
    names it appends to the missing-targets list.
   */
  datatype MissingHook = MissingHook(replacement: string, recorded: seq<string>)

  /** The collaborators of one generation pass. */
  datatype Env = Env(
    // cmMakefile::FindTargetToUse
    findTarget: string -> Option<Target>,
    // HandleMissingTarget(depender, dependee), a virtual hook of the subclasses
    handleMissingTarget: (Target, Target) -> MissingHook,
    // GetLinkInformation(config)->GetItems(): the target of each link item, if any;
    // None when the linker language cannot be determined
    linkItems: (Target, string) -> Option<seq<Option<Target>>>,
    // GetLinkInterface(config, target)
    linkInterface: (Target, string) -> Option<LinkInterface>,
    // HasSOName(config) and GetSOName(config)
    soName: (Target, string) -> Option<string>,
    // InstallNameDir(target, config), a virtual hook of the subclasses
    installNameDir: (Target, string) -> string,
    // cmMakefile::IsOn
    isOn: string -> bool,
    // cmMakefile::GetConfigurations
    configurations: seq<string>,
    // CMAKE_INSTALL_PREFIX, the top source and the top binary directory
    installPrefix: string,
    homeDirectory: string,
    homeOutputDirectory: string,
    // cmSystemTools::FileIsFullPath, ComparePath and IsSubDirectory
    fileIsFullPath: string -> bool,
    comparePath: (string, string) -> bool,
    isSubDirectory: (string, string) -> bool,
    // cmSystemTools::ExpandListArgument
    expandList: string -> seq<string>,
    // cmGeneratorExpression::Split, Find and Preprocess(input, rule, resolveRelativePaths)
    split: string -> seq<string>,
    findGenex: string -> Option<nat>,
    preprocess: (string, PreprocessContext, bool) -> string,
    // Parse(dirs)->Evaluate(mf, "", false, target): the value and GetHadContextSensitiveCondition()
    evaluate: (string, Target) -> (string, bool))
}
