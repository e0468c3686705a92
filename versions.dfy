/** The version descriptor read from a properties file, and the update decision that
    Main.checkForUpdates takes by comparing the installed descriptor with the newest. */
module Versions {
  import opened Files

  const BuildVersionKey: string := "build_version"
  const JreURLKey: string := "jre_URL_Win64"
  const JreSignatureKey: string := "jre_SHA256_Signature_Win64"
  const JreFolderNameKey: string := "jre_FolderName_Win64"

  /** The four values Properties.getProperty returns; None is a missing key (null). */
  datatype Descriptor = Descriptor(
    buildVersion: Option<string>,
    jreURL: Option<string>,
    jreSignature: Option<string>,
    jreFolderName: Option<string>)

  /** A descriptor every one of whose keys is present. */
  predicate Populated(d: Descriptor)
  {
    d.buildVersion.Some? && d.jreURL.Some? && d.jreSignature.Some? && d.jreFolderName.Some?
  }

  function GetProperty(props: map<string, string>, key: string): Option<string>
  {
    if key in props then Some(props[key]) else None
  }

  /** The key/value pairs of the properties file at `path`. A missing or unreadable
      file yields none, which is what the caught exception leaves behind: every
      getProperty result stays null. */
  function PropertiesAt(fs: FileMap, path: string): map<string, string>
  {
    if path in fs && fs[path].File? && fs[path].content.Properties? then fs[path].content.props
    else map[]
  }

  function DescriptorOf(props: map<string, string>): Descriptor
  {
    Descriptor(GetProperty(props, BuildVersionKey), GetProperty(props, JreURLKey),
               GetProperty(props, JreSignatureKey), GetProperty(props, JreFolderNameKey))
  }

  function ReadDescriptor(fs: FileMap, path: string): Descriptor
  {
    DescriptorOf(PropertiesAt(fs, path))
  }

  /** Which components checkForUpdates leaves marked stale. */
  datatype Plan = Plan(clientNeedsUpdate: bool, jreNeedsUpdate: bool)

  /** An uncaught NullPointerException and the source line that throws it. */
  datatype Fault = NullPointer(line: nat)

  datatype Decision = Decided(plan: Plan) | Crashed(fault: Fault)

  /** The installed build equals the newest one (`installedversion.equals(newestversion)`,
      line 259), for an installed descriptor whose build version is present. */
  predicate ClientCurrent(installed: Descriptor, newest: Descriptor)
  {
    installed.buildVersion.Some? && installed.buildVersion == newest.buildVersion
  }

  /** The comparison of lines 259-269 with an installed descriptor (the first run, with
      none, skips it). Line 259 dereferences the installed build version and line 264 the
      installed JRE URL, signature and folder name in turn, stopping at the first that
      differs (`&&` short-circuits); a null among those it reaches throws. */
  function Decide(installed: Descriptor, newest: Descriptor): Decision
  {
    var d := installed;
    if d.buildVersion.None? then Crashed(NullPointer(259))
    else
      var client := !ClientCurrent(d, newest);
      if d.jreURL.None? then Crashed(NullPointer(264))
      else if d.jreURL != newest.jreURL then Decided(Plan(client, true))
      else if d.jreSignature.None? then Crashed(NullPointer(264))
      else if d.jreSignature != newest.jreSignature then Decided(Plan(client, true))
      else if d.jreFolderName.None? then Crashed(NullPointer(264))
      else Decided(Plan(client, d.jreFolderName != newest.jreFolderName))
  }

  /** What the decision means: when nothing throws, the client is stale exactly when the
      build versions differ and the runtime exactly when one of its three values differs.
      A fully populated installed descriptor never throws, a missing installed build
      version throws at line 259, and every other throw is at line 264. */
  lemma DecideMeaning(installed: Descriptor, newest: Descriptor)
    ensures var r := Decide(installed, newest);
      && (r.Decided? ==>
            (r.plan.clientNeedsUpdate <==> installed.buildVersion != newest.buildVersion))
      && (r.Decided? ==>
            (!r.plan.jreNeedsUpdate <==>
               && installed.jreURL == newest.jreURL
               && installed.jreSignature == newest.jreSignature
               && installed.jreFolderName == newest.jreFolderName))
      && (Populated(installed) ==> r.Decided?)
      && (r == Crashed(NullPointer(259)) <==> installed.buildVersion.None?)
      && (r.Crashed? ==> r.fault.line in {259, 264})
  {
  }

  /** A null installed JRE value reached by line 264 throws only when every value line
      264 compared before it matched. */
  lemma JreNullPointer(d: Descriptor, newest: Descriptor)
    requires d.buildVersion.Some?
    ensures Decide(d, newest) == Crashed(NullPointer(264)) <==>
      || d.jreURL.None?
      || (d.jreURL == newest.jreURL && d.jreSignature.None?)
      || (d.jreURL == newest.jreURL && d.jreSignature == newest.jreSignature && d.jreFolderName.None?)
  {
  }
}
