/** The ways one run of the program can stop without producing an archive. */
module Errors {

  datatype Failure =
    | Usage               // no archive path was given
    | ZipUnreadable       // the path does not name a readable zip archive
    | JarNotFound         // no outer entry is a CodeLocatorPlugin*.jar
    | JarUnreadable       // the located entry could not be read as a nested archive
    | UnsupportedMethod   // an entry uses a method archive/zip cannot (de)compress
    | MalformedDirectory  // a directory entry carries data
    | WriteToDirectory    // data was written under a directory name
    | DescriptorNotFound  // the nested archive has no plugin.xml entry
}
