TestResult.DisplayName,TestResult.Outcome,TestResult.Duration,TestResult.ResourceCount,RandomSeed
Slugs.SeparatorRunCollapse (correctness),Passed,00:00:22.3917415,42438001,0
Slugs.SeparatorRunCollapse (well-formedness),Passed,00:00:00.1532418,41867,0
