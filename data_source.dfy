/**
 * The configuration the uploader reads from `MSFrameworkManager.default.dataSource`:
 * the site, the three server-side scripts, and the credentials.  Nil until the
 * application sets it; every operation halts when it is missing.
 */
module DataSources {

  datatype DataSource = DataSource(
    website: string,              // base URL, also the prefix every response URL must carry
    createUserFile: string,       // script that creates a user
    customKeyValuesFile: string,  // script that receives arbitrary key/value pairs
    writeFile: string,            // script that runs an SQL statement
    websiteUserName: string,      // sent as `Username` and as the challenge credential's user
    databaseUserPass: string,     // sent as `Password` in the request bodies
    websiteUserPass: string       // the challenge credential's password
  )
}
