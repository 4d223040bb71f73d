/**
 * utl/utl.go: splitting a page path `server/project/name` into its parts,
 * with defaults for the parts a shorter path leaves out.
 */
module Utl {
  import opened GoStrings

  /** `Page`. */
  datatype Page = Page(name: string, server: string, project: string)

  /**
   * `ParsePagePath`: the last `/`-separated segment is the page name, the one
   * before it the project and the one before that the server; missing ones
   * take the defaults, and segments further left are ignored.
   */
  function ParsePagePath(pagePath: string, defaultProject: string, defaultServer: string): (p: Page)
    ensures '/' !in p.name
    ensures p.name == pagePath <==> '/' !in pagePath
    ensures '/' !in pagePath ==> p.project == defaultProject && p.server == defaultServer
  {
    var names := Split(pagePath, '/');
    assert '/' !in pagePath ==> names == [pagePath] by {
      if '/' !in pagePath {
        SplitNoSeparator(pagePath, '/');
      }
    }
    var pageName := names[|names| - 1];
    var projectName := if |names| > 1 then names[|names| - 2] else defaultProject;
    var serverName := if |names| > 2 then names[|names| - 3] else defaultServer;
    Page(pageName, serverName, projectName)
  }

  /** The name is what follows the last `/` of the path. */
  lemma NameFollowsLastSlash(pagePath: string, defaultProject: string, defaultServer: string)
    requires '/' in pagePath
    ensures var name := ParsePagePath(pagePath, defaultProject, defaultServer).name;
            && |name| < |pagePath|
            && pagePath[|pagePath| - |name| - 1] == '/'
            && pagePath[|pagePath| - |name|..] == name
  {
    var names := Split(pagePath, '/');
    var name := names[|names| - 1];
    JoinSplit(pagePath, '/');
    JoinSnoc(names, '/');
    var before := Join(names[..|names| - 1], '/');
    assert pagePath == before + "/" + name;
    assert pagePath[|before| + 1..] == name;
  }

  /** `project/name`: the project is given, the server is the default. */
  lemma ProjectAndName(project: string, name: string, defaultProject: string, defaultServer: string)
    requires '/' !in project && '/' !in name
    ensures ParsePagePath(project + "/" + name, defaultProject, defaultServer) == Page(name, defaultServer, project)
  {
    SplitAppend(project, '/', name);
    SplitNoSeparator(name, '/');
  }

  /** `server/project/name`: all three parts are given. */
  lemma ServerProjectAndName(server: string, project: string, name: string, defaultProject: string, defaultServer: string)
    requires '/' !in server && '/' !in project && '/' !in name
    ensures ParsePagePath(server + "/" + project + "/" + name, defaultProject, defaultServer) == Page(name, server, project)
  {
    ThreeSegments(server, project, name);
  }

  /** Segments left of the server are ignored. */
  lemma LeadingSegmentsIgnored(rest: string, server: string, project: string, name: string,
                               defaultProject: string, defaultServer: string)
    requires '/' !in server && '/' !in project && '/' !in name
    ensures ParsePagePath(rest + "/" + server + "/" + project + "/" + name, defaultProject, defaultServer)
            == Page(name, server, project)
  {
    var tail := server + "/" + project + "/" + name;
    ThreeSegments(server, project, name);
    SplitConcat(rest, '/', tail);
    assert rest + "/" + server + "/" + project + "/" + name == rest + ['/'] + tail;
    var names := Split(rest, '/') + [server, project, name];
    assert Split(rest + "/" + server + "/" + project + "/" + name, '/') == names;
    assert names[|names| - 3..] == [server, project, name];
  }

  /** Three `/`-free segments joined by `/` split back into those three. */
  lemma ThreeSegments(server: string, project: string, name: string)
    requires '/' !in server && '/' !in project && '/' !in name
    ensures Split(server + "/" + project + "/" + name, '/') == [server, project, name]
  {
    SplitNoSeparator(name, '/');
    SplitAppend(project, '/', name);
    assert server + "/" + project + "/" + name == server + ['/'] + (project + "/" + name);
    SplitAppend(server, '/', project + "/" + name);
  }
}
